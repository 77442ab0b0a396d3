/** Worked instances of the key derivation, taken from the repository's
    test fixtures. */
module NamingExamples {
  import opened Wrappers
  import opened GoStrings
  import opened Schema
  import opened Naming

  /** Prefix "APP" and field PostgresUser give the key APP_POSTGRES_USER. */
  lemma EnvPrefixExample(lib: Library)
    requires lib.screamingSnake("PostgresUser") == "POSTGRES_USER"
    ensures ConvertName(lib, "PostgresUser", Env, "", "APP") == Derived("APP_POSTGRES_USER", ":")
  {
    PostgresFacts();
  }

  /** The tag `slice,:` names the key "slice" and the separator ":"; with
      prefix "APP" the environment key is APP_SLICE. */
  lemma SliceTagExample(lib: Library)
    ensures ConvertName(lib, "Slice", Env, "slice,:", "APP") == Derived("APP_SLICE", ":")
  {
    SliceTagSplit();
    SliceKeyFacts();
  }

  /** The prefix test is made before upper-casing, so a lower-case prefix is
      added again in front of an upper-case key that already carries it. */
  lemma EnvPrefixIsCaseSensitive(lib: Library)
    ensures ConvertName(lib, "X", Env, "APP_X", "app").name == "APP_APP_X"
  {
    LowerPrefixFacts();
  }

  // ---------------------------------------------------------------------
  // The string facts the examples rest on, one small proof each. They are
  // kept apart because the solver handles each concrete string best in a
  // proof context of its own.
  // ---------------------------------------------------------------------

  lemma PostgresFacts()
    ensures TagOverride("") == "" && TagSeparator("", Env) == ":"
    ensures EnvPrefix("APP") == "APP_"
    ensures WithPrefix("APP_", "POSTGRES_USER") == "APP_POSTGRES_USER"
    ensures ToUpper("APP_POSTGRES_USER") == "APP_POSTGRES_USER"
  {
    EmptyTagFact();
    AppPrefixFact();
    PostgresPrepend();
    PostgresUpper();
  }

  lemma EmptyTagFact()
    ensures TagOverride("") == "" && TagSeparator("", Env) == ":"
  {
    NoCommaFact("");
  }

  lemma AppPrefixFact()
    ensures EnvPrefix("APP") == "APP_"
  {
    PrefixFact("APP", "APP_");
  }

  lemma PostgresPrepend()
    ensures WithPrefix("APP_", "POSTGRES_USER") == "APP_POSTGRES_USER"
  {
    PrependFact("APP_", "POSTGRES_USER");
  }

  lemma PostgresUpper()
    ensures ToUpper("APP_POSTGRES_USER") == "APP_POSTGRES_USER"
  {
    var s := "APP_POSTGRES_USER";
    assert IsUpperCased(s);
    ToUpperOfUpperCased(s);
  }

  lemma SliceKeyFacts()
    ensures EnvPrefix("APP") == "APP_"
    ensures WithPrefix("APP_", "slice") == "APP_slice"
    ensures ToUpper("APP_slice") == "APP_SLICE"
  {
    PrefixFact("APP", "APP_");
    PrependFact("APP_", "slice");
    UpperFact("APP_slice", "APP_SLICE");
  }

  lemma SliceTagSplit()
    ensures TagOverride("slice,:") == "slice" && TagSeparator("slice,:", Env) == ":"
  {
    OccursAtChar("slice,:", ',', 5);
    forall j: nat | j < 5
      ensures !OccursAt("slice,:", ",", j)
    {
      OccursAtChar("slice,:", ',', j);
    }
    assert IndexOf("slice,:", ",") == Some(5);
    assert "slice,:"[..5] == "slice" && "slice,:"[6..] == ":";
  }

  lemma LowerPrefixFacts()
    ensures EnvPrefix("app") == "app_"
    ensures TagOverride("APP_X") == "APP_X"
    ensures WithPrefix("app_", "APP_X") == "app_APP_X"
    ensures ToUpper("app_APP_X") == "APP_APP_X"
  {
    LowerPrefixFact();
    NoCommaFact("APP_X");
    LowerPrefixPrepend();
    LowerPrefixUpper();
  }

  lemma LowerPrefixFact()
    ensures EnvPrefix("app") == "app_"
  {
    PrefixFact("app", "app_");
  }

  lemma LowerPrefixPrepend()
    ensures WithPrefix("app_", "APP_X") == "app_APP_X"
  {
    PrependFact("app_", "APP_X");
  }

  lemma LowerPrefixUpper()
    ensures ToUpper("app_APP_X") == "APP_APP_X"
  {
    UpperFact("app_APP_X", "APP_APP_X");
  }

  lemma PrefixFact(prefix: string, p: string)
    requires |prefix| > 0 && !IsSpace(prefix[0]) && !IsSpace(prefix[|prefix| - 1])
    requires prefix[|prefix| - 1] != '_' && prefix[|prefix| - 1] != '-'
    requires p == prefix + "_"
    ensures EnvPrefix(prefix) == p
  {
    TrimSpaceFixpoint(prefix);
  }

  lemma PrependFact(p: string, name: string)
    requires |p| > 0 && |name| > 0 && p[0] != name[0]
    ensures WithPrefix(p, name) == p + name
  {
    FirstCharMismatch(name, p);
  }

  lemma NoCommaFact(tagVal: string)
    requires ',' !in tagVal
    ensures TagOverride(tagVal) == tagVal
  {
    NoOccurrenceOfAbsentChar(tagVal, ',');
  }

  lemma UpperFact(s: string, u: string)
    requires |s| == |u| && forall i :: 0 <= i < |s| ==> UpperChar(s[i]) == u[i]
    ensures ToUpper(s) == u
  {
  }
}
