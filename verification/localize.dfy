/** `getLocalized` of morinolab_hp/lib/utils.ts: reading the Japanese or
    English variant (`nameJa` / `nameEn`) of a field of a record, falling back
    to the other language. A record is a map from property names to values. */
module Localize {
  import opened JsValues

  datatype Locale = Ja | En

  function Suffix(locale: Locale): string {
    match locale
    case Ja => "Ja"
    case En => "En"
  }

  function Other(locale: Locale): (o: Locale)
    ensures o != locale
  {
    match locale
    case Ja => En
    case En => Ja
  }

  /** `typeof item[key] === 'string' && item[key]`. */
  predicate Filled(item: map<string, JsValue>, key: string) {
    key in item && item[key].Str? && item[key].s != ""
  }

  /** `${baseKey}Ja` or `${baseKey}En`. */
  function LocalKey(baseKey: string, locale: Locale): (key: string)
    ensures |key| == |baseKey| + 2 && key[..|baseKey|] == baseKey
  {
    baseKey + Suffix(locale)
  }

  /** The two languages' keys of a field are different properties. */
  lemma LocalKeysDiffer(baseKey: string, locale: Locale)
    ensures LocalKey(baseKey, locale) != LocalKey(baseKey, Other(locale))
  {
    var k := LocalKey(baseKey, locale);
    var o := LocalKey(baseKey, Other(locale));
    assert k[|baseKey|] != o[|baseKey|];
  }

  /** `getLocalized(item, baseKey, locale)`. */
  function GetLocalized(item: map<string, JsValue>, baseKey: string, locale: Locale): (r: string)
    ensures var key := LocalKey(baseKey, locale);
      var fallbackKey := LocalKey(baseKey, Other(locale));
      && (Filled(item, key) ==> r == item[key].s)
      && (!Filled(item, key) && Filled(item, fallbackKey) ==> r == item[fallbackKey].s)
      && (r == "" <==> !Filled(item, key) && !Filled(item, fallbackKey))
  {
    var key := LocalKey(baseKey, locale);
    var fallbackKey := LocalKey(baseKey, Other(locale));
    if Filled(item, key) then item[key].s
    else if Filled(item, fallbackKey) then item[fallbackKey].s
    else ""
  }

  /** When only one language is filled in, both locales show it; the result
      differs between locales only when both are filled in. */
  lemma OneLanguageShownToAll(item: map<string, JsValue>, baseKey: string)
    ensures !(Filled(item, LocalKey(baseKey, Ja)) && Filled(item, LocalKey(baseKey, En))) ==>
      GetLocalized(item, baseKey, Ja) == GetLocalized(item, baseKey, En)
    ensures GetLocalized(item, baseKey, Ja) != GetLocalized(item, baseKey, En) ==>
      GetLocalized(item, baseKey, Ja) == item[LocalKey(baseKey, Ja)].s &&
      GetLocalized(item, baseKey, En) == item[LocalKey(baseKey, En)].s
  {
  }

  /** The value always comes from one of the two properties, never from elsewhere. */
  lemma LocalizedFromItem(item: map<string, JsValue>, baseKey: string, locale: Locale)
    requires GetLocalized(item, baseKey, locale) != ""
    ensures exists l :: Filled(item, LocalKey(baseKey, l)) && GetLocalized(item, baseKey, locale) == item[LocalKey(baseKey, l)].s
  {
    if !Filled(item, LocalKey(baseKey, locale)) {
      assert Filled(item, LocalKey(baseKey, Other(locale)));
    }
  }
}
