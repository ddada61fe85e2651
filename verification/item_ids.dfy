/** The id arithmetic the CMS shares between its item stores: the next id
    (`Math.max(...ids) + 1`) and the `listItems` order
    (`.sort((a, b) => key(a.id) - key(b.id))`). */
module ItemIds {
  import opened Text
  import opened JsValues
  import opened Wrappers
  import opened DataLoader
  import opened CmsDisk

  /** One entry of an item listing: the directory name and the title shown. */
  datatype Item = Item(id: string, title: JsValue)

  /** `a < b` on numbers; every comparison with NaN is false. */
  predicate NumLt(a: Num, b: Num) {
    match (a, b)
    case (Finite(x), Finite(y)) => x < y
    case (NegInf, Finite(_)) => true
    case (NegInf, PosInf) => true
    case (Finite(_), PosInf) => true
    case _ => false
  }

  /** Apart from NaN, numbers are totally ordered. */
  lemma NumLtTotal(a: Num, b: Num)
    requires !a.NaN? && !b.NaN?
    ensures NumLt(a, b) || NumLt(b, a) || a == b
    ensures !(NumLt(a, b) && NumLt(b, a))
  {
  }

  lemma NumLeTrans(a: Num, b: Num, c: Num)
    requires !a.NaN? && !b.NaN? && !c.NaN?
    requires !NumLt(b, a) && !NumLt(c, b)
    ensures !NumLt(c, a)
  {
  }

  /** `Math.max(a, b)`. */
  function Max2(a: Num, b: Num): (m: Num)
    ensures a.NaN? || b.NaN? ==> m == NaN
    ensures !a.NaN? && !b.NaN? ==> (m == a || m == b) && !NumLt(m, a) && !NumLt(m, b)
  {
    if a.NaN? || b.NaN? then NaN else if NumLt(a, b) then b else a
  }

  /** `Math.max(...ns)` for a non-empty list: NaN as soon as one element is
      NaN, otherwise the element no other exceeds. */
  function MathMax(ns: seq<Num>): (m: Num)
    requires |ns| > 0
    ensures NaN in ns ==> m == NaN
    ensures NaN !in ns ==> m in ns && forall n :: n in ns ==> !NumLt(m, n)
  {
    if |ns| == 1 then ns[0]
    else
      var init := ns[..|ns| - 1];
      var last := ns[|ns| - 1];
      assert ns == init + [last];
      if NaN in ns then NaN
      else
        MaxSnoc(init, last, MathMax(init));
        Max2(MathMax(init), last)
  }

  lemma MaxSnoc(init: seq<Num>, last: Num, mi: Num)
    requires NaN !in init && !last.NaN? && mi in init
    requires forall n :: n in init ==> !NumLt(mi, n)
    ensures forall n :: n in init + [last] ==> !NumLt(Max2(mi, last), n)
  {
    var m := Max2(mi, last);
    forall n | n in init + [last] ensures !NumLt(m, n) {
      if n in init {
        NumLeTrans(n, mi, m);
      }
    }
  }

  /** `n + 1`. */
  function AddOne(n: Num): (r: Num)
    ensures n.Finite? ==> r == Finite(n.value + 1)
    ensures !n.Finite? ==> r == n
  {
    match n
    case Finite(i) => Finite(i + 1)
    case _ => n
  }

  /** `ids.length > 0 ? Math.max(...ids) + 1 : 1` over
      `names.map(Number).filter((n) => !isNaN(n))`. */
  function NextId(names: seq<string>): (r: Num)
    ensures r != NaN
  {
    var ids := DropNaN(Numbers(names));
    if |ids| > 0 then AddOne(MathMax(ids)) else Finite(1)
  }

  /** The value of every name that reads as a number. */
  lemma NumericNameCounted(names: seq<string>, k: nat)
    requires k < |names| && StringToNumber(names[k]) != NaN
    ensures StringToNumber(names[k]) in DropNaN(Numbers(names))
  {
    assert Numbers(names)[k] == StringToNumber(names[k]);
  }

  /** While no name reads as an infinity, the next id is an integer above
      every numeric name, so its text is not among the names. */
  lemma NextIdFresh(names: seq<string>)
    requires forall k :: 0 <= k < |names| ==> !StringToNumber(names[k]).PosInf? && !StringToNumber(names[k]).NegInf?
    ensures NextId(names).Finite?
    ensures forall k :: 0 <= k < |names| && StringToNumber(names[k]).Finite? ==>
      StringToNumber(names[k]).value < NextId(names).value
    ensures NumToString(NextId(names)) !in names
  {
    var ids := DropNaN(Numbers(names));
    forall n | n in ids ensures n.Finite? {
      var k :| 0 <= k < |names| && Numbers(names)[k] == n;
    }
    forall k | 0 <= k < |names| && StringToNumber(names[k]).Finite?
      ensures StringToNumber(names[k]).value < NextId(names).value
    {
      NumericNameCounted(names, k);
    }
    var v := NextId(names).value;
    if NumToString(NextId(names)) in names {
      var k :| 0 <= k < |names| && names[k] == IntToString(v);
      NumberOfIntToString(v);
    }
  }

  /** A directory named "Infinity" pins the next id at Infinity, whose text
      is that very name. */
  lemma InfinityNamePinsNextId(names: seq<string>)
    requires "Infinity" in names
    ensures NextId(names) == PosInf
    ensures NumToString(NextId(names)) in names
  {
    var k :| 0 <= k < |names| && names[k] == "Infinity";
    TrimKeepsSolidEnds("Infinity");
    assert !IsSignedDecimal("Infinity") by {
      assert !IsDigit("Infinity"[0]);
    }
    NumericNameCounted(names, k);
  }

  // ---------------------------------------------------------------------------
  // listItems order
  // ---------------------------------------------------------------------------

  /** `x` inserted into a listing: it goes in front of every trailing entry
      the comparator `key(a.id) - key(b.id)` puts after it. */
  function Insert(s: seq<Item>, x: Item, key: string -> Num): (r: seq<Item>)
    ensures multiset(r) == multiset(s) + multiset{x}
    decreases |s|
  {
    if |s| == 0 then [x]
    else
      var init := s[..|s| - 1];
      var last := s[|s| - 1];
      assert s == init + [last];
      if NumLt(key(x.id), key(last.id)) then Insert(init, x, key) + [last] else s + [x]
  }

  /** `items.sort((a, b) => key(a.id) - key(b.id))`, as a stable insertion of
      each entry in turn. */
  function SortById(items: seq<Item>, key: string -> Num): (r: seq<Item>)
    ensures multiset(r) == multiset(items)
    decreases |items|
  {
    if |items| == 0 then []
    else
      var init := items[..|items| - 1];
      assert items == init + [items[|items| - 1]];
      Insert(SortById(init, key), items[|items| - 1], key)
  }

  predicate KeysKnown(items: seq<Item>, key: string -> Num) {
    forall i :: 0 <= i < |items| ==> !key(items[i].id).NaN?
  }

  predicate SortedById(items: seq<Item>, key: string -> Num) {
    forall i, j :: 0 <= i < j < |items| ==> !NumLt(key(items[j].id), key(items[i].id))
  }

  lemma {:induction false} InsertSorted(s: seq<Item>, x: Item, key: string -> Num)
    requires SortedById(s, key) && KeysKnown(s, key) && !key(x.id).NaN?
    ensures SortedById(Insert(s, x, key), key)
    decreases |s|
  {
    if |s| > 0 {
      var init := s[..|s| - 1];
      var last := s[|s| - 1];
      var kl := key(last.id);
      if NumLt(key(x.id), kl) {
        InsertSorted(init, x, key);
        var r0 := Insert(init, x, key);
        var r := r0 + [last];
        forall i, j | 0 <= i < j < |r| ensures !NumLt(key(r[j].id), key(r[i].id)) {
          if j == |r| - 1 {
            assert r[i] in multiset(r0);
            assert r[i] in multiset(init) + multiset{x};
            if r[i] != x {
              var m :| 0 <= m < |init| && init[m] == r[i];
              assert s[m] == r[i];
            }
          }
        }
      } else {
        var r := s + [x];
        NumLtTotal(key(x.id), kl);
        forall i, j | 0 <= i < j < |r| ensures !NumLt(key(r[j].id), key(r[i].id)) {
          if j == |r| - 1 && i < |s| - 1 {
            NumLeTrans(key(s[i].id), kl, key(x.id));
          }
        }
      }
    }
  }

  /** With every key a number, the listing is in ascending key order. */
  lemma {:induction false} SortByIdSorted(items: seq<Item>, key: string -> Num)
    requires KeysKnown(items, key)
    ensures SortedById(SortById(items, key), key)
    decreases |items|
  {
    if |items| > 0 {
      var init := items[..|items| - 1];
      var x := items[|items| - 1];
      SortByIdSorted(init, key);
      var s := SortById(init, key);
      forall i | 0 <= i < |s| ensures !key(s[i].id).NaN? {
        assert s[i] in multiset(init);
        var m :| 0 <= m < |init| && init[m] == s[i];
        assert items[m] == s[i];
      }
      InsertSorted(s, x, key);
    }
  }

  // ---------------------------------------------------------------------------
  // Listings
  // ---------------------------------------------------------------------------

  /** `Number(id)`, the sort key of the listings in `main.ts` and
      `ContentRepository`. */
  function NumberKey(id: string): Num {
    StringToNumber(id)
  }

  /** The ids of a listing. */
  function Ids(items: seq<Item>): (r: seq<string>)
    ensures |r| == |items|
    ensures forall k :: 0 <= k < |r| ==> r[k] == items[k].id
  {
    seq(|items|, k requires 0 <= k < |items| => items[k].id)
  }

  /** One entry of a listing: the title of the article's front matter when
      it is truthy (`data.title || fallback`), the fallback when it is not,
      when there is no article or when reading it throws. */
  function ListedItem(files: map<Path, string>, matter: string -> Option<JsValue>, typeDir: Path, name: string,
                      fallback: string -> JsValue): (item: Item)
    ensures item.id == name
    ensures Truthy(item.title) || item.title == fallback(name)
  {
    var article := typeDir + [name, "article.md"];
    var title :=
      if article in files && matter(files[article]).Some? && Truthy(matter(files[article]).value)
      then matter(files[article]).value
      else fallback(name);
    Item(name, title)
  }

  /** `.map(...)` of the directory names to their entries. */
  function ListedItems(files: map<Path, string>, matter: string -> Option<JsValue>, typeDir: Path, names: seq<string>,
                       fallback: string -> JsValue): (r: seq<Item>)
    ensures |r| == |names|
    ensures forall k :: 0 <= k < |r| ==> r[k] == ListedItem(files, matter, typeDir, names[k], fallback)
  {
    seq(|names|, k requires 0 <= k < |names| => ListedItem(files, matter, typeDir, names[k], fallback))
  }

  lemma IdsAppend(a: seq<Item>, b: seq<Item>)
    ensures Ids(a + b) == Ids(a) + Ids(b)
  {
  }

  lemma IdsSnoc(s: seq<Item>, x: Item)
    ensures Ids(s + [x]) == Ids(s) + [x.id]
  {
  }

  lemma {:induction false} IdsOfInsert(s: seq<Item>, x: Item, key: string -> Num)
    ensures multiset(Ids(Insert(s, x, key))) == multiset(Ids(s)) + multiset{x.id}
    decreases |s|
  {
    if |s| == 0 {
      assert Ids([x]) == [x.id];
    } else {
      var init := s[..|s| - 1];
      var last := s[|s| - 1];
      assert Ids(s) == Ids(init) + [last.id] by {
        assert s == init + [last];
        IdsSnoc(init, last);
      }
      if NumLt(key(x.id), key(last.id)) {
        var r := Insert(init, x, key);
        assert Insert(s, x, key) == r + [last];
        assert Ids(r + [last]) == Ids(r) + [last.id] by {
          IdsSnoc(r, last);
        }
        IdsOfInsert(init, x, key);
      } else {
        assert Insert(s, x, key) == s + [x];
        IdsSnoc(s, x);
      }
    }
  }

  /** Sorting a listing permutes its ids. */
  lemma {:induction false} IdsOfSort(items: seq<Item>, key: string -> Num)
    ensures multiset(Ids(SortById(items, key))) == multiset(Ids(items))
    decreases |items|
  {
    if |items| > 0 {
      var init := items[..|items| - 1];
      var x := items[|items| - 1];
      var sorted := SortById(init, key);
      assert SortById(items, key) == Insert(sorted, x, key);
      assert Ids(items) == Ids(init) + [x.id] by {
        assert items == init + [x];
        IdsSnoc(init, x);
      }
      IdsOfSort(init, key);
      IdsOfInsert(sorted, x, key);
    }
  }
}
