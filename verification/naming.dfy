/** The name deriver (convertName): the key a field is looked up under in
    each medium, and the separator its slice values are split on. */
module Naming {
  import opened Wrappers
  import opened GoStrings
  import opened Schema

  /** The package-level acronym list, in the order the flag rewrite tries it. */
  const Acronyms: seq<string> :=
    ["API", "SMTP", "PostgreSQL", "SQL", "JSON", "YAML", "DB", "AI", "CRM", "HTTPS", "HTTP", "FTP", "SSH"]

  /** Every acronym is non-empty and begins with an upper-case ASCII letter. */
  predicate AcronymTable(acrs: seq<string>)
  {
    forall j :: 0 <= j < |acrs| ==> |acrs[j]| > 0 && IsUpperAscii(acrs[j][0])
  }

  lemma AcronymsWellFormed()
    ensures AcronymTable(Acronyms)
  {
  }

  /** The acronym loop of the flag branch: every acronym that prefixes the
      name as it stands has its first occurrence replaced by its lower-case form. */
  function RewriteAcronyms(name: string, acrs: seq<string>): string
    decreases |acrs|
  {
    if acrs == [] then name
    else
      var next := if HasPrefix(name, acrs[0]) then ReplaceFirst(name, acrs[0], ToLower(acrs[0])) else name;
      RewriteAcronyms(next, acrs[1..])
  }

  /** The first acronym of the list that prefixes `name`, if any. */
  function FirstAcronym(name: string, acrs: seq<string>): (r: Option<nat>)
    ensures r.Some? ==> r.value < |acrs| && HasPrefix(name, acrs[r.value])
    ensures r.Some? ==> forall j :: 0 <= j < r.value ==> !HasPrefix(name, acrs[j])
    ensures r.None? ==> forall j :: 0 <= j < |acrs| ==> !HasPrefix(name, acrs[j])
  {
    if acrs == [] then None
    else if HasPrefix(name, acrs[0]) then Some(0)
    else match FirstAcronym(name, acrs[1..])
      case None => None
      case Some(j) => Some(j + 1)
  }

  lemma {:induction false} RewriteWithoutMatch(name: string, acrs: seq<string>)
    requires forall j :: 0 <= j < |acrs| ==> !HasPrefix(name, acrs[j])
    ensures RewriteAcronyms(name, acrs) == name
    decreases |acrs|
  {
    if acrs != [] {
      RewriteWithoutMatch(name, acrs[1..]);
    }
  }

  /** The rewrite touches only the leading acronym: the first acronym of the
      list that prefixes the name is lower-cased and the rest of the name is
      kept; later acronyms never fire, because the name then starts with a
      lower-case letter. Without a prefixing acronym the name is unchanged. */
  lemma {:induction false} RewriteAcronymsSpec(name: string, acrs: seq<string>)
    requires AcronymTable(acrs)
    ensures FirstAcronym(name, acrs).None? ==> RewriteAcronyms(name, acrs) == name
    ensures FirstAcronym(name, acrs).Some? ==>
      var a := acrs[FirstAcronym(name, acrs).value];
      RewriteAcronyms(name, acrs) == ToLower(a) + name[|a|..]
    decreases |acrs|
  {
    if acrs != [] {
      var a := acrs[0];
      if HasPrefix(name, a) {
        ReplaceFirstAtPrefix(name, a, ToLower(a));
        var next := ToLower(a) + name[|a|..];
        assert IsLowerAscii(next[0]);
        forall j | 0 <= j < |acrs[1..]|
          ensures !HasPrefix(next, acrs[1..][j])
        {
          assert IsUpperAscii(acrs[1..][j][0]);
        }
        RewriteWithoutMatch(next, acrs[1..]);
      } else {
        RewriteAcronymsSpec(name, acrs[1..]);
      }
    }
  }

  /** The rewritten name has the original's length and differs from it only
      within the leading acronym. */
  lemma RewriteKeepsTail(name: string)
    ensures |RewriteAcronyms(name, Acronyms)| == |name|
    ensures FirstAcronym(name, Acronyms).None? ==> RewriteAcronyms(name, Acronyms) == name
    ensures FirstAcronym(name, Acronyms).Some? ==>
      var n := |Acronyms[FirstAcronym(name, Acronyms).value]|;
      RewriteAcronyms(name, Acronyms)[n..] == name[n..]
  {
    AcronymsWellFormed();
    RewriteAcronymsSpec(name, Acronyms);
  }

  /** "HTTPSPort" becomes "httpsPort": HTTPS is tried before HTTP. */
  lemma RewriteExample()
    ensures RewriteAcronyms("HTTPSPort", Acronyms) == "httpsPort"
  {
    AcronymsWellFormed();
    HttpsIsFirstAcronym();
    RewriteAcronymsSpec("HTTPSPort", Acronyms);
    LowerHttps();
  }

  lemma HttpsIsFirstAcronym()
    ensures FirstAcronym("HTTPSPort", Acronyms) == Some(9)
  {
    var name := "HTTPSPort";
    forall j | 0 <= j < 9
      ensures !HasPrefix(name, Acronyms[j])
    {
      assert Acronyms[j][0] != 'H';
    }
    assert HasPrefix(name, Acronyms[9]);
  }

  lemma LowerHttps()
    ensures ToLower("HTTPS") + "HTTPSPort"[5..] == "httpsPort"
  {
  }

  /** The derived lookup key and slice separator of a field. */
  datatype Derived = Derived(name: string, separator: string)

  function DefaultSeparator(k: SourceKind): string
  {
    if k == Env then ":" else ","
  }

  /** The key a field gets in a medium when its tag names none. */
  function DefaultName(lib: Library, name: string, k: SourceKind): string
  {
    match k
    case Env => lib.screamingSnake(name)
    case Dir => lib.kebab(name)
    case Flag => "-" + lib.lowerCamel(RewriteAcronyms(name, Acronyms))
  }

  /** The name part of a tag: the text before its first comma, or all of it. */
  function TagOverride(tagVal: string): string
  {
    if Contains(tagVal, ",") then SplitFirst(tagVal, ",").0 else tagVal
  }

  /** The separator part of a tag: the text after its first comma, or the
      medium's default when the tag has no comma. */
  function TagSeparator(tagVal: string, k: SourceKind): string
  {
    if Contains(tagVal, ",") then SplitFirst(tagVal, ",").1 else DefaultSeparator(k)
  }

  /** The environment prefix as applied: trimmed, and ended with "_" unless it
      is empty or already ends with "_" or "-". */
  function EnvPrefix(prefix: string): string
  {
    var p := TrimSpace(prefix);
    if p != "" && !HasSuffix(p, "_") && !HasSuffix(p, "-") then p + "_" else p
  }

  /** Prepends the prefix unless the name already starts with it (a
      case-sensitive test). */
  function WithPrefix(p: string, name: string): string
  {
    if p != "" && !HasPrefix(name, p) then p + name else name
  }

  /** convertName. */
  function ConvertName(lib: Library, name: string, k: SourceKind, tagVal: string, prefix: string): (d: Derived)
    // the separator is the tag's text after its first comma, else the medium's default
    ensures Contains(tagVal, ",") ==> tagVal == TagOverride(tagVal) + "," + d.separator
    ensures !Contains(tagVal, ",") ==> d.separator == DefaultSeparator(k)
    // environment keys are upper case and carry the (upper-cased) prefix
    ensures k == Env ==> IsUpperCased(d.name) && HasPrefix(d.name, ToUpper(EnvPrefix(prefix)))
    // the prefix is prepended only when the override or screaming-snake name
    // does not already start with it (compared before upper-casing)
    ensures k == Env ==>
      var base := if TagOverride(tagVal) != "" then TagOverride(tagVal) else lib.screamingSnake(name);
      var p := EnvPrefix(prefix);
      ((p == "" || HasPrefix(base, p)) ==> d.name == ToUpper(base)) &&
      ((p != "" && !HasPrefix(base, p)) ==> d.name == ToUpper(p) + ToUpper(base))
    // a directory key is the override verbatim, else the kebab-case name
    ensures k == Dir ==> d.name == if TagOverride(tagVal) != "" then TagOverride(tagVal) else lib.kebab(name)
    // a flag key without an override is "-" and the lower-camel form of the
    // name after the acronym rewrite
    ensures k == Flag && TagOverride(tagVal) == "" ==> HasPrefix(d.name, "-")
    ensures k == Flag && TagOverride(tagVal) == "" ==>
      d.name == "-" + lib.lowerCamel(RewriteAcronyms(name, Acronyms))
    // a flag override is kept, with one extra "-" exactly when it already starts with "-"
    ensures k == Flag && TagOverride(tagVal) != "" ==>
      d.name == (if HasPrefix(TagOverride(tagVal), "-") then "-" + TagOverride(tagVal) else TagOverride(tagVal))
  {
    var ov := TagOverride(tagVal);
    var base :=
      if ov != "" then (if k == Flag && HasPrefix(ov, "-") then "-" + ov else ov)
      else DefaultName(lib, name, k);
    var fieldName := if k == Env then EnvKey(EnvPrefix(prefix), base) else base;
    Derived(fieldName, TagSeparator(tagVal, k))
  }

  /** The environment key of a name under a normalised prefix: the prefix is
      put in front unless the name already starts with it, and the whole key
      is upper-cased. */
  function EnvKey(p: string, base: string): (key: string)
    ensures IsUpperCased(key) && HasPrefix(key, ToUpper(p))
    ensures (p == "" || HasPrefix(base, p)) ==> key == ToUpper(base)
    ensures (p != "" && !HasPrefix(base, p)) ==> key == ToUpper(p) + ToUpper(base)
  {
    if p != "" && !HasPrefix(base, p) then
      ToUpperAppend(p, base);
      ToUpper(WithPrefix(p, base))
    else
      if p != "" then
        ToUpperKeepsPrefix(base, p);
        ToUpper(WithPrefix(p, base))
      else ToUpper(WithPrefix(p, base))
  }

  /** A normalised prefix is empty or ends with "_" or "-". */
  lemma EnvPrefixShape(prefix: string)
    ensures var p := EnvPrefix(prefix);
      p == "" || HasSuffix(p, "_") || HasSuffix(p, "-")
  {
  }

  /** Normalising an already normalised prefix changes nothing. */
  lemma EnvPrefixIdempotent(prefix: string)
    ensures EnvPrefix(EnvPrefix(prefix)) == EnvPrefix(prefix)
  {
    var p := TrimSpace(prefix);
    TrimSpaceIdempotent(prefix);
    if p != "" && !HasSuffix(p, "_") && !HasSuffix(p, "-") {
      var q := p + "_";
      assert q[0] == p[0];
      TrimSpaceFixpoint(q);
      assert HasSuffix(q, "_");
    }
  }

  /** Prefixing twice is prefixing once: a key never carries the prefix twice
      because of the prefix rule. */
  lemma WithPrefixIdempotent(p: string, name: string)
    ensures WithPrefix(p, WithPrefix(p, name)) == WithPrefix(p, name)
  {
    if p != "" && !HasPrefix(name, p) {
      assert (p + name)[..|p|] == p;
    }
  }

}
