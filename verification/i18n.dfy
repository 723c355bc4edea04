/**
 * Translation keys for function types and property names. The translation
 * library's lookup is a parameter `t(key, namespace, default)`.
 */
module I18n {
  import opened Wrappers
  import opened Strings

  type Translator = (string, string, string) -> string

  /** The translation namespace: `ticlo-<ns>` for a non-empty namespace, else `ticlo-block`. */
  function I18nNamespace(ns: Option<string>): (r: string)
    ensures |r| > 6 && r[..6] == "ticlo-"
    ensures ns.Some? && ns.value != "" ==> r[6..] == ns.value
    ensures !(ns.Some? && ns.value != "") ==> r[6..] == "block"
  {
    if ns.Some? && ns.value != "" then "ticlo-" + ns.value else "ticlo-block"
  }

  /** `translateType`: '' for an empty type, else the lookup of `<type>.@name` defaulting to the type. */
  function TranslateType(t: Translator, typ: string, ns: Option<string>): (r: string)
    ensures typ == "" ==> r == ""
    ensures typ != "" ==> r == t(typ + ".@name", I18nNamespace(ns), typ)
  {
    if typ == "" then "" else t(typ + ".@name", I18nNamespace(ns), typ)
  }

  /**
   * `translateProperty`: a name with a digit is split at its first digit; the
   * part before is looked up and the rest, from the digit on, appended as is.
   */
  function TranslateProperty(t: Translator, typ: string, name: string, ns: Option<string>): (r: string)
    ensures typ == "" ==> r == name
    ensures typ != "" && !HasDigit(name) ==> r == t(typ + "." + name + ".@name", I18nNamespace(ns), name)
    ensures typ != "" ==> forall k :: 0 <= k < |name| && IsDigit(name[k]) && !HasDigit(name[..k]) ==>
              r == t(typ + "." + name[..k] + ".@name", I18nNamespace(ns), name[..k]) + name[k..]
  {
    if typ == "" then name
    else
      match FirstDigit(name)
      case Some(k) =>
        var base := name[..k];
        t(typ + "." + base + ".@name", I18nNamespace(ns), base) + name[k..]
      case None =>
        t(typ + "." + name + ".@name", I18nNamespace(ns), name)
  }

  /** The translator with no translations: every lookup falls back to its default. */
  function Untranslated(key: string, ns: string, default: string): string {
    default
  }

  /** With no translations available, a property's label is its own name. */
  lemma UntranslatedPropertyIsName(typ: string, name: string, ns: Option<string>)
    ensures TranslateProperty(Untranslated, typ, name, ns) == name
  {
    if typ != "" && HasDigit(name) {
      var k := FirstDigit(name).value;
      assert !HasDigit(name[..k]) by {
        forall j | 0 <= j < k ensures !IsDigit(name[..k][j]) { }
      }
      assert name[..k] + name[k..] == name;
    }
  }

  /** With no translations available, a type's label is the type itself. */
  lemma UntranslatedTypeIsType(typ: string, ns: Option<string>)
    ensures TranslateType(Untranslated, typ, ns) == typ
  {
  }
}
