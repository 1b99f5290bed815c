/** The cache of feature flags that are switched on through environment variables. */
module Features {
  import opened Prelude

  function Experimental(): string { "EXPERIMENTAL_" }

  function ShortPrefix(): string { "GOOGLE_SDK_GO_" }

  function LongPrefix(): string { ShortPrefix() + Experimental() }

  /** `strings.ToLower` on ASCII letters. */
  function ToLower(s: string): string {
    seq(|s|, i requires 0 <= i < |s| => if 'A' <= s[i] <= 'Z' then (s[i] as int + 32) as char else s[i])
  }

  // ---------------------------------------------------------------- which names an environment enables

  /** One entry, read as `prefix` + `name` + "=" + `value`. */
  predicate Reads(entry: string, prefix: string, name: string, value: string) {
    entry == prefix + name + "=" + value
  }

  /** The entry switches `name` on with this value. */
  predicate Switches(entry: string, name: string, value: string) {
    && ToLower(value) == "true"
    && (|| Reads(entry, LongPrefix(), name, value)
        || (Reads(entry, ShortPrefix(), name, value) && !(Experimental() <= name)))
  }

  /** A flag variable whose value is "true" in any case. */
  ghost predicate Enables(entry: string, name: string) {
    '=' !in name && exists value :: Switches(entry, name, value)
  }

  ghost predicate Enabled(env: seq<string>, name: string) {
    exists i :: 0 <= i < |env| && Enables(env[i], name)
  }

  // ---------------------------------------------------------------- the parts of an entry

  function FirstEquals(entry: string): nat {
    IndexFunc(entry, Is('='))
  }

  /** An entry that reads as prefix, name and value does so at its first equals sign. */
  lemma ReadsAtFirstEquals(entry: string, prefix: string, name: string, value: string)
    requires Reads(entry, prefix, name, value) && '=' !in prefix && '=' !in name
    ensures FirstEquals(entry) == |prefix| + |name| < |entry|
    ensures name == entry[|prefix|..FirstEquals(entry)] && value == entry[FirstEquals(entry) + 1..]
  {
    assert entry == (prefix + name) + ("=" + value);
    IndexFuncIs(prefix + name, "=" + value, Is('='));
  }

  lemma FirstEqualsReads(entry: string, prefix: string)
    requires prefix <= entry && '=' !in prefix && FirstEquals(entry) < |entry|
    ensures |prefix| <= FirstEquals(entry) && '=' !in entry[|prefix|..FirstEquals(entry)]
    ensures Reads(entry, prefix, entry[|prefix|..FirstEquals(entry)], entry[FirstEquals(entry) + 1..])
  {
    var eq := FirstEquals(entry);
    assert forall i :: 0 <= i < |prefix| ==> entry[i] == prefix[i];
    assert entry == prefix + entry[|prefix|..eq] + "=" + entry[eq + 1..];
  }

  lemma PrefixesHaveNoEquals()
    ensures '=' !in ShortPrefix() && '=' !in LongPrefix() && '=' !in Experimental()
    ensures ShortPrefix() != "" && LongPrefix() != "" && ShortPrefix() != LongPrefix()
  {
    assert |LongPrefix()| == |ShortPrefix()| + |Experimental()|;
  }

  /** The longer prefix matches exactly when what is left after the shorter one is an experimental name. */
  lemma LongerPrefix(entry: string, name: string, value: string)
    requires Reads(entry, ShortPrefix(), name, value)
    ensures LongPrefix() <= entry <==> Experimental() <= name
  {
    PrefixesHaveNoEquals();
    hide ShortPrefix, Experimental;
    var tail := name + "=" + value;
    assert entry == ShortPrefix() + tail;
    assert entry[|ShortPrefix()|..] == tail;
    assert LongPrefix()[|ShortPrefix()|..] == Experimental();
    assert LongPrefix() <= entry <==> Experimental() <= tail;
    assert tail[|name|] == '=' && tail[..|name|] == name;
  }

  /** The prefix that `IsFeatureEnabled` settles on. */
  function PrefixOf(entry: string): string {
    if LongPrefix() <= entry then LongPrefix() else if ShortPrefix() <= entry then ShortPrefix() else ""
  }

  lemma ReadsIsPrefix(entry: string, prefix: string, name: string, value: string)
    requires Reads(entry, prefix, name, value)
    ensures prefix <= entry
  {
    assert entry == prefix + (name + "=" + value);
  }

  /** What an entry switches on is found behind its prefix. */
  lemma SwitchedIsFound(entry: string, name: string, value: string)
    requires '=' !in name && Switches(entry, name, value)
    ensures PrefixOf(entry) != "" && |PrefixOf(entry)| <= FirstEquals(entry) < |entry|
    ensures name == entry[|PrefixOf(entry)|..FirstEquals(entry)] && value == entry[FirstEquals(entry) + 1..]
  {
    hide ShortPrefix, LongPrefix, Experimental, ToLower, Reads, FirstEquals;
    PrefixesHaveNoEquals();
    if Reads(entry, LongPrefix(), name, value) {
      ReadsIsPrefix(entry, LongPrefix(), name, value);
      ReadsAtFirstEquals(entry, LongPrefix(), name, value);
    } else {
      ReadsIsPrefix(entry, ShortPrefix(), name, value);
      LongerPrefix(entry, name, value);
      ReadsAtFirstEquals(entry, ShortPrefix(), name, value);
    }
  }

  /** What is found behind the prefix is switched on, if the value says so. */
  lemma FoundIsSwitched(entry: string)
    requires PrefixOf(entry) != "" && FirstEquals(entry) < |entry| && ToLower(entry[FirstEquals(entry) + 1..]) == "true"
    ensures |PrefixOf(entry)| <= FirstEquals(entry)
    ensures Enables(entry, entry[|PrefixOf(entry)|..FirstEquals(entry)])
  {
    hide ShortPrefix, LongPrefix, Experimental, ToLower, Reads, FirstEquals;
    PrefixesHaveNoEquals();
    FirstEqualsReads(entry, PrefixOf(entry));
    var name, value := entry[|PrefixOf(entry)|..FirstEquals(entry)], entry[FirstEquals(entry) + 1..];
    if PrefixOf(entry) == ShortPrefix() {
      LongerPrefix(entry, name, value);
    }
    assert Switches(entry, name, value);
  }

  /** The name under which an entry is stored as true, if any. */
  method FlagName(entry: string) returns (flag: Option<string>)
    ensures forall name :: flag == Some(name) <==> Enables(entry, name)
  {
    hide ShortPrefix, LongPrefix, Experimental, ToLower, Reads, Switches, FirstEquals;
    PrefixesHaveNoEquals();
    var prefix := "";
    if LongPrefix() <= entry {
      prefix := LongPrefix();
    } else if ShortPrefix() <= entry {
      prefix := ShortPrefix();
    }
    flag := None;
    var eq := FirstEquals(entry);
    if prefix != "" && eq < |entry| {
      FirstEqualsReads(entry, prefix);
      if ToLower(entry[eq + 1..]) == "true" {
        flag := Some(entry[|prefix|..eq]);
        FoundIsSwitched(entry);
      }
    }
    forall name | Enables(entry, name)
      ensures flag == Some(name)
    {
      var value :| Switches(entry, name, value);
      SwitchedIsFound(entry, name, value);
      SwitchedValue(entry, name, value);
    }
  }

  lemma SwitchedValue(entry: string, name: string, value: string)
    requires Switches(entry, name, value)
    ensures ToLower(value) == "true"
  {
    hide ShortPrefix, LongPrefix, Experimental, ToLower, Reads;
  }

  // ---------------------------------------------------------------- the cache

  /** `IsFeatureEnabled` with the variables it shares. */
  class FeatureCache {
    var once: bool
    var store: map<string, bool>

    ghost var snapshot: seq<string>  // the environment at the first query

    ghost predicate Valid()
      reads this
    {
      once ==> forall n :: (n in store && store[n]) <==> Enabled(snapshot, n)
    }

    constructor ()
      ensures Valid() && !once
    {
      once, store := false, map[];
    }

    method IsFeatureEnabled(environ: seq<string>, name: string) returns (b: bool)
      requires Valid()
      modifies this
      ensures Valid() && once
      ensures snapshot == if old(once) then old(snapshot) else environ
      ensures b <==> Enabled(snapshot, name)
    {
      if !once {
        store := map[];
        snapshot := environ;
        for i := 0 to |environ|
          invariant forall n :: (n in store && store[n]) <==> Enabled(environ[..i], n)
          invariant !once && snapshot == environ
        {
          var key := FlagName(environ[i]);
          if key.Some? {
            store := store[key.value := true];
          }
          EnabledByOneMore(environ, i);
        }
        assert environ[..|environ|] == environ;
        once := true;
      }
      b := name in store && store[name];
    }

    method TestOnlyResetIsFeatureEnabled()
      modifies this
      ensures Valid() && !once
    {
      once, store := false, map[];
    }
  }

  lemma EnabledByOneMore(env: seq<string>, i: nat)
    requires i < |env|
    ensures forall n :: Enabled(env[..i + 1], n) <==> Enabled(env[..i], n) || Enables(env[i], n)
  {
  }

  /** The first-query environment decides for ever: later changes of the environment have no effect. */
  method QueryAll(c: FeatureCache, environs: seq<seq<string>>, names: seq<string>) returns (answers: seq<bool>)
    requires c.Valid() && !c.once && |environs| == |names|
    modifies c
    ensures |answers| == |names|
    ensures forall i :: 0 <= i < |names| ==> (answers[i] <==> Enabled(environs[0], names[i]))
  {
    answers := [];
    for i := 0 to |names|
      invariant c.Valid() && |answers| == i && (c.once <==> i > 0) && (i > 0 ==> c.snapshot == environs[0])
      invariant forall j :: 0 <= j < i ==> (answers[j] <==> Enabled(environs[0], names[j]))
    {
      var b := c.IsFeatureEnabled(environs[i], names[i]);
      answers := answers + [b];
    }
  }

  // ---------------------------------------------------------------- one entry, one name

  /** "true" in any mixture of cases. */
  predicate SaysTrue(value: string) {
    && |value| == 4
    && value[0] in {'t', 'T'} && value[1] in {'r', 'R'} && value[2] in {'u', 'U'} && value[3] in {'e', 'E'}
  }

  lemma TrueInAnyCase(value: string)
    ensures ToLower(value) == "true" <==> SaysTrue(value)
  {
    if |value| == 4 {
      var lower := ToLower(value);
      assert lower == [lower[0], lower[1], lower[2], lower[3]];
      assert "true" == ['t', 'r', 'u', 'e'];
      assert lower[0] == 't' <==> value[0] in {'t', 'T'};
      assert lower[1] == 'r' <==> value[1] in {'r', 'R'};
      assert lower[2] == 'u' <==> value[2] in {'u', 'U'};
      assert lower[3] == 'e' <==> value[3] in {'e', 'E'};
    }
  }

  /** Every entry of an environment, with the prefixes written out: which one name it enables, if any. */
  lemma EntryEnables(suffix: string, value: string, name: string)
    requires '=' !in suffix
    ensures Enables("GOOGLE_SDK_GO_" + suffix + "=" + value, name) <==>
            SaysTrue(value) && name == if "EXPERIMENTAL_" <= suffix then suffix[13..] else suffix
  {
    TrueInAnyCase(value);
    PrefixesHaveNoEquals();
    var entry := ShortPrefix() + suffix + "=" + value;
    assert Experimental() == "EXPERIMENTAL_" && |Experimental()| == 13;
    assert entry == "GOOGLE_SDK_GO_" + suffix + "=" + value;
    EntryParts(entry, suffix, value);
    hide ShortPrefix, LongPrefix, Experimental, ToLower, Reads, FirstEquals, PrefixOf, SaysTrue;
    if SaysTrue(value) {
      FoundIsSwitched(entry);
    }
    if Enables(entry, name) {
      var v :| Switches(entry, name, v);
      SwitchedIsFound(entry, name, v);
      SwitchedValue(entry, name, v);
    }
  }

  lemma EntryParts(entry: string, suffix: string, value: string)
    requires '=' !in suffix && Reads(entry, ShortPrefix(), suffix, value)
    ensures PrefixOf(entry) != "" && |PrefixOf(entry)| <= FirstEquals(entry) < |entry|
    ensures value == entry[FirstEquals(entry) + 1..]
    ensures entry[|PrefixOf(entry)|..FirstEquals(entry)] ==
            if Experimental() <= suffix then suffix[|Experimental()|..] else suffix
  {
    PrefixesHaveNoEquals();
    hide ShortPrefix, Experimental, Reads, FirstEquals;
    ReadsIsPrefix(entry, ShortPrefix(), suffix, value);
    LongerPrefix(entry, suffix, value);
    ReadsAtFirstEquals(entry, ShortPrefix(), suffix, value);
    assert suffix == entry[|ShortPrefix()|..FirstEquals(entry)];
  }
}
