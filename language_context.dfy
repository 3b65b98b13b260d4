/**
 * The language of the interface and the dotted-key translation lookup.
 * A translation table is a tree of string leaves under nested namespaces;
 * `t("chat.send")` walks the tree one key piece at a time and falls back to
 * the key itself when a step finds nothing (or an empty string).
 */
module LanguageContext {
  import opened Wrappers
  import opened Strings

  const DefaultLanguage := "th"
  const KeySep: char := '.'

  /** A translation entry: a leaf text or a nested namespace. */
  datatype Value = Str(s: string) | Obj(fields: map<string, Value>)

  /** JavaScript truthiness of a looked-up entry: `undefined` and `""` are falsy, objects are truthy. */
  predicate Truthy(v: Option<Value>) {
    v.Some? && (v.value.Str? ==> v.value.s != "")
  }

  /** `value[k]`: the named field of a namespace; a leaf has no fields here. */
  function Member(v: Value, k: string): (r: Option<Value>)
    ensures r.Some? ==> v.Obj? && k in v.fields && r.value == v.fields[k]
    ensures r.None? ==> v.Str? || k !in v.fields
  {
    if v.Obj? && k in v.fields then Some(v.fields[k]) else None
  }

  /** `translations[language]` */
  function Table(translations: map<string, Value>, language: string): Option<Value> {
    if language in translations then Some(translations[language]) else None
  }

  /** The walk of the loop in `t`, written recursively: `None` once a step fails. */
  function Lookup(v: Option<Value>, keys: seq<string>): Option<Value>
    decreases |keys|
  {
    if |keys| == 0 then v
    else if Truthy(v) && Truthy(Member(v.value, keys[0])) then Lookup(Member(v.value, keys[0]), keys[1..])
    else None
  }

  /** What `t(key)` finds for a key, before the fallback to the key. */
  function Resolve(translations: map<string, Value>, language: string, key: string): Option<Value> {
    Lookup(Table(translations, language), Split(key, KeySep))
  }

  /** `t(key)`: the entry found, or the key itself. */
  function Translation(translations: map<string, Value>, language: string, key: string): Value {
    match Resolve(translations, language, key)
    case Some(v) => v
    case None => Str(key)
  }

  /** A walk of at least one step that succeeds ends on a truthy entry, reached field by field. */
  lemma {:induction false} LookupFoundTruthy(v: Option<Value>, keys: seq<string>)
    requires |keys| >= 1 && Lookup(v, keys).Some?
    ensures Truthy(Lookup(v, keys))
    ensures Truthy(v) && v.value.Obj? && keys[0] in v.value.fields
    decreases |keys|
  {
    if |keys| > 1 {
      LookupFoundTruthy(Member(v.value, keys[0]), keys[1..]);
    }
  }

  /** `t` returns either a non-empty text or namespace found in the table, or the key unchanged. */
  lemma TranslationIsFoundOrKey(translations: map<string, Value>, language: string, key: string)
    ensures var r := Translation(translations, language, key);
            r == Str(key) || (Resolve(translations, language, key) == Some(r) && Truthy(Some(r)))
    ensures language !in translations ==> Translation(translations, language, key) == Str(key)
  {
    if Resolve(translations, language, key).Some? {
      LookupFoundTruthy(Table(translations, language), Split(key, KeySep));
    }
  }

  /** Walking two key lists one after the other is walking their concatenation (the second one non-empty). */
  lemma {:induction false} LookupAppend(v: Option<Value>, xs: seq<string>, ys: seq<string>)
    requires |ys| >= 1
    ensures Lookup(v, xs + ys) == Lookup(Lookup(v, xs), ys)
    decreases |xs|
  {
    if |xs| == 0 {
      assert xs + ys == ys;
    } else {
      assert (xs + ys)[0] == xs[0];
      assert (xs + ys)[1..] == xs[1..] + ys;
      if Truthy(v) && Truthy(Member(v.value, xs[0])) {
        LookupAppend(Member(v.value, xs[0]), xs[1..], ys);
      }
    }
  }

  /** A dotted key is looked up inside the namespace its first piece names. */
  lemma DottedKeyNests(translations: map<string, Value>, language: string, a: string, b: string)
    requires Free(a, KeySep)
    ensures Resolve(translations, language, a + [KeySep] + b)
         == Lookup(Resolve(translations, language, a), Split(b, KeySep))
  {
    SplitAfterPiece(a, KeySep, b);
    SplitFree(a, KeySep);
    LookupAppend(Table(translations, language), [a], Split(b, KeySep));
  }

  /** `t(key)`: splits the key on '.' and walks the table of the language. */
  method T(translations: map<string, Value>, language: string, key: string) returns (r: Value)
    ensures r == Translation(translations, language, key)
  {
    var keys := Split(key, KeySep);
    var value := Table(translations, language);
    var i := 0;
    while i < |keys|
      invariant 0 <= i <= |keys|
      invariant Lookup(value, keys[i..]) == Resolve(translations, language, key)
      invariant i > 0 ==> value.Some?
    {
      assert keys[i..][0] == keys[i] && keys[i..][1..] == keys[i + 1..];
      if Truthy(value) && Truthy(Member(value.value, keys[i])) {
        value := Member(value.value, keys[i]);
      } else {
        return Str(key);
      }
      i := i + 1;
    }
    assert keys[i..] == [];
    r := value.value;
  }

  /** `savedLang ? savedLang : 'th'`: the language after the saved choice is restored. */
  function InitialLanguage(saved: Option<string>): (r: string)
    ensures TruthyStr(saved) ==> r == saved.value
    ensures !TruthyStr(saved) ==> r == DefaultLanguage
  {
    if TruthyStr(saved) then saved.value else DefaultLanguage
  }

  /** The language provider: the current language and the stored `language` entry of local storage. */
  class LanguageState {
    var language: string
    var saved: Option<string>

    /** Start with Thai, then switch to the stored language if there is one. */
    constructor (stored: Option<string>)
      ensures language == InitialLanguage(stored) && saved == stored
    {
      language := InitialLanguage(stored);
      saved := stored;
    }

    /** changeLanguage: sets the language and stores it. */
    method ChangeLanguage(lang: string)
      modifies this
      ensures language == lang && saved == Some(lang)
      ensures InitialLanguage(saved) == if lang == "" then DefaultLanguage else lang
    {
      language := lang;
      saved := Some(lang);
    }

    /** `t(key)` in the current language. */
    method Translate(translations: map<string, Value>, key: string) returns (r: Value)
      ensures r == Translation(translations, language, key)
    {
      r := T(translations, language, key);
    }
  }
}
