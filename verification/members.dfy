/** The grade logic of the members page (src/app/members/page.tsx): a
    member's grade label, the split of the member list into alumni and
    current members, and the grouping by grade. The current year is a
    parameter. */
module Members {
  /** The fields of a member (src/models/member.tsx) the grouping reads. */
  datatype Member = Member(id: int, name: string, admissionYear: int, repeats: int, graduated: bool)

  const Grades: seq<string> := ["B1", "B2", "B3", "B4", "M1", "M2", "D1", "D2", "D3"]

  /** No grade label is written twice, and neither "Alumni" nor "Unknown" is one. */
  lemma GradesDistinct()
    ensures forall i, j :: 0 <= i < j < |Grades| ==> Grades[i] != Grades[j]
    ensures "Alumni" !in Grades && "Unknown" !in Grades
  {
    assert forall i :: 0 <= i < |Grades| ==> |Grades[i]| == 2;
    assert forall i :: 0 <= i < 4 ==> Grades[i][0] == 'B';
    assert forall i :: 4 <= i < 6 ==> Grades[i][0] == 'M';
    assert forall i :: 6 <= i < 9 ==> Grades[i][0] == 'D';
  }

  /** `getGradeLabel(admissionYear, repeats, graduated)`. */
  function GradeLabel(currentYear: int, admissionYear: int, repeats: int, graduated: bool): (grade: string)
    ensures graduated <==> grade == "Alumni"
    ensures !graduated && 0 <= currentYear - admissionYear + repeats < |Grades| ==>
      grade == Grades[currentYear - admissionYear + repeats]
    ensures grade in Grades <==> !graduated && 0 <= currentYear - admissionYear + repeats < |Grades|
    ensures grade == "Unknown" <==> !graduated && !(0 <= currentYear - admissionYear + repeats < |Grades|)
  {
    GradesDistinct();
    if graduated then "Alumni"
    else
      var diff := currentYear - admissionYear + repeats;
      if 0 <= diff < |Grades| then Grades[diff] else "Unknown"
  }

  /** Each repeated year moves a current member one grade later. */
  lemma RepeatMovesOneGrade(currentYear: int, admissionYear: int, repeats: int, k: nat)
    requires k + 1 < |Grades| && GradeLabel(currentYear, admissionYear, repeats, false) == Grades[k]
    ensures GradeLabel(currentYear, admissionYear, repeats + 1, false) == Grades[k + 1]
  {
    GradesDistinct();
    var diff := currentYear - admissionYear + repeats;
    assert Grades[diff] == Grades[k];
  }

  function MemberLabel(currentYear: int, m: Member): string {
    GradeLabel(currentYear, m.admissionYear, m.repeats, m.graduated)
  }

  /** `members.filter(keep)`. */
  function Filter(ms: seq<Member>, keep: Member -> bool): (r: seq<Member>)
    ensures |r| <= |ms|
    ensures forall m :: m in r <==> m in ms && keep(m)
    decreases |ms|
  {
    if |ms| == 0 then []
    else
      var init := ms[..|ms| - 1];
      var last := ms[|ms| - 1];
      assert ms == init + [last];
      Filter(init, keep) + if keep(last) then [last] else []
  }

  function Alumni(ms: seq<Member>): seq<Member> {
    Filter(ms, (m: Member) => m.graduated)
  }

  function CurrentStudents(ms: seq<Member>): seq<Member> {
    Filter(ms, (m: Member) => !m.graduated)
  }

  /** Alumni and current members split the list: together they hold every
      member as often as it occurs, and no member is in both. */
  lemma {:induction false} AlumniAndCurrentPartition(ms: seq<Member>)
    ensures multiset(Alumni(ms)) + multiset(CurrentStudents(ms)) == multiset(ms)
    ensures forall m :: m in ms ==> (m in Alumni(ms) <==> m !in CurrentStudents(ms))
    decreases |ms|
  {
    if |ms| > 0 {
      var init := ms[..|ms| - 1];
      var last := ms[|ms| - 1];
      assert ms == init + [last];
      AlumniAndCurrentPartition(init);
    }
  }

  /** The members labelled `grade`, in list order (`map[grade]`). */
  function Bucket(currentYear: int, ms: seq<Member>, grade: string): (r: seq<Member>)
    ensures |r| <= |ms|
    decreases |ms|
  {
    if |ms| == 0 then []
    else
      var init := ms[..|ms| - 1];
      var last := ms[|ms| - 1];
      assert ms == init + [last];
      Bucket(currentYear, init, grade) + if MemberLabel(currentYear, last) == grade then [last] else []
  }

  /** The bucket of a list with one more member at its end. */
  lemma BucketSnoc(currentYear: int, ms: seq<Member>, m: Member, grade: string)
    ensures Bucket(currentYear, ms + [m], grade) ==
      Bucket(currentYear, ms, grade) + if MemberLabel(currentYear, m) == grade then [m] else []
  {
    assert (ms + [m])[..|ms|] == ms;
  }

  /** A grade has a bucket exactly when some member carries it. */
  lemma BucketNonEmpty(currentYear: int, ms: seq<Member>, grade: string)
    ensures Bucket(currentYear, ms, grade) != [] <==> exists m :: m in ms && MemberLabel(currentYear, m) == grade
  {
    var r := Bucket(currentYear, ms, grade);
    if r != [] {
      BucketsExactlyOnce(currentYear, ms, r[0], grade);
    }
    forall m | m in ms && MemberLabel(currentYear, m) == grade ensures r != [] {
      BucketsExactlyOnce(currentYear, ms, m, grade);
    }
  }

  /** A bucket of a joined list is the first part's bucket followed by the
      second part's: the input order is kept inside each bucket. */
  lemma {:induction false} BucketOfAppend(currentYear: int, a: seq<Member>, b: seq<Member>, grade: string)
    ensures Bucket(currentYear, a + b, grade) == Bucket(currentYear, a, grade) + Bucket(currentYear, b, grade)
    decreases |b|
  {
    if |b| == 0 {
      assert a + b == a;
    } else {
      var init := b[..|b| - 1];
      var last := b[|b| - 1];
      var tail := if MemberLabel(currentYear, last) == grade then [last] else [];
      calc {
        Bucket(currentYear, a + b, grade);
        { assert a + b == (a + init) + [last]; BucketSnoc(currentYear, a + init, last, grade); }
        Bucket(currentYear, a + init, grade) + tail;
        { BucketOfAppend(currentYear, a, init, grade); }
        Bucket(currentYear, a, grade) + Bucket(currentYear, init, grade) + tail;
        { assert b == init + [last]; BucketSnoc(currentYear, init, last, grade); }
        Bucket(currentYear, a, grade) + Bucket(currentYear, b, grade);
      }
    }
  }

  /** Every member lies in exactly one bucket, the one of its own grade, as
      often as it occurs in the list. */
  lemma {:induction false} BucketsExactlyOnce(currentYear: int, ms: seq<Member>, m: Member, grade: string)
    ensures m in Bucket(currentYear, ms, grade) <==> m in ms && grade == MemberLabel(currentYear, m)
    ensures grade == MemberLabel(currentYear, m) ==> multiset(Bucket(currentYear, ms, grade))[m] == multiset(ms)[m]
    decreases |ms|
  {
    if |ms| > 0 {
      var init := ms[..|ms| - 1];
      var last := ms[|ms| - 1];
      assert ms == init + [last];
      BucketsExactlyOnce(currentYear, init, m, grade);
    }
  }

  /** `buckets` is the grouping of `done`: a bucket for each grade some
      member of `done` carries, holding exactly its members. */
  ghost predicate GroupedAs(currentYear: int, done: seq<Member>, buckets: map<string, seq<Member>>) {
    && (forall grade :: grade in buckets <==> Bucket(currentYear, done, grade) != [])
    && (forall grade :: grade in buckets ==> buckets[grade] == Bucket(currentYear, done, grade))
  }

  /** One turn of `members.forEach`: the member goes at the end of its
      grade's bucket, which is made when missing. */
  lemma GroupedStep(currentYear: int, done: seq<Member>, buckets: map<string, seq<Member>>, m: Member)
    requires GroupedAs(currentYear, done, buckets)
    ensures var grade := MemberLabel(currentYear, m);
      GroupedAs(currentYear, done + [m],
                buckets[grade := (if grade in buckets then buckets[grade] else []) + [m]])
  {
    forall g {
      BucketSnoc(currentYear, done, m, g);
    }
  }

  /** `categorize(members)`: one bucket per grade that occurs, holding the
      members with that grade in list order. */
  method Categorize(currentYear: int, members: seq<Member>) returns (buckets: map<string, seq<Member>>)
    ensures forall grade :: grade in buckets <==> exists m :: m in members && MemberLabel(currentYear, m) == grade
    ensures forall grade :: grade in buckets ==> buckets[grade] == Bucket(currentYear, members, grade)
  {
    buckets := map[];
    for i := 0 to |members|
      invariant GroupedAs(currentYear, members[..i], buckets)
    {
      var m := members[i];
      var grade := GradeLabel(currentYear, m.admissionYear, m.repeats, m.graduated);
      GroupedStep(currentYear, members[..i], buckets, m);
      if grade !in buckets {
        buckets := buckets[grade := []];
      }
      buckets := buckets[grade := buckets[grade] + [m]];
      assert members[..i + 1] == members[..i] + [m];
    }
    assert members[..|members|] == members;
    forall grade ensures grade in buckets <==> exists m :: m in members && MemberLabel(currentYear, m) == grade {
      BucketNonEmpty(currentYear, members, grade);
    }
  }
}
