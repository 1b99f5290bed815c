/** Request headers: the merge of metadata, context headers and arguments, and the `x-goog-api-client` printer. */
module Headers {
  import opened Prelude

  type Values = map<string, seq<string>>

  function Get(m: Values, key: string): seq<string> {
    if key in m then m[key] else []
  }

  /** Every value of an alternating list appended to its key, one after the other. */
  function Extend(m: Values, keyvals: seq<string>): Values
    requires Even(keyvals)
  {
    var n := |keyvals|;
    if n == 0 then m
    else
      var before := Extend(m, keyvals[..n - 2]);
      before[keyvals[n - 2] := Get(before, keyvals[n - 2]) + [keyvals[n - 1]]]
  }

  lemma {:induction false} ExtendedValues(m: Values, keyvals: seq<string>, key: string)
    requires Even(keyvals)
    ensures Get(Extend(m, keyvals), key) == Get(m, key) + ValuesFor(keyvals, key)
    ensures key in Extend(m, keyvals) <==> key in m || ValuesFor(keyvals, key) != []
  {
    if keyvals != [] {
      ExtendedValues(m, keyvals[..|keyvals| - 2], key);
    }
  }

  /** Setting `a` and then `b` is setting `a + b`. */
  lemma {:induction false} ExtendCompose(m: Values, a: seq<string>, b: seq<string>)
    requires Even(a) && Even(b)
    ensures Extend(Extend(m, a), b) == Extend(m, a + b)
  {
    if b == [] {
      assert a + b == a;
    } else {
      assert (a + b)[..|a + b| - 2] == a + b[..|b| - 2];
      ExtendCompose(m, a, b[..|b| - 2]);
    }
  }

  /** Setting one pair appends the second to what there is under the first. */
  lemma ExtendOne(m: Values, k: string, v: string, key: string)
    ensures Get(Extend(m, [k, v]), key) == Get(m, key) + if k == key then [v] else []
  {
    ExtendedValues(m, [k, v], key);
    ValuesForPair(k, v, key);
  }

  function XGoogKey(): string { "x-goog-api-client" }

  // ---------------------------------------------------------------- insertMetadata

  /** The values that go into the one `x-goog-api-client` header. */
  function Merged(headers: Values, keyvals: seq<string>): seq<string>
    requires Even(keyvals)
  {
    Get(headers, XGoogKey()) + ValuesFor(keyvals, XGoogKey())
  }

  /** The values of one key in the result, for metadata `out`, context headers `headers` and arguments `keyvals`. */
  function ValuesOf(out: Values, headers: Values, keyvals: seq<string>, key: string): seq<string>
    requires Even(keyvals)
  {
    if key != XGoogKey() then Get(out, key) + Get(headers, key) + ValuesFor(keyvals, key)
    else if Merged(headers, keyvals) == [] then Get(out, key)
    else [Join(Merged(headers, keyvals), " ")]
  }

  /** The keys of the result: a context header without values still makes an entry, unless it is the merged one. */
  predicate HasKey(out: Values, headers: Values, keyvals: seq<string>, key: string)
    requires Even(keyvals)
  {
    key in out || (key in headers && key != XGoogKey()) || ValuesFor(keyvals, key) != []
    || (key == XGoogKey() && Merged(headers, keyvals) != [])
  }

  /** Every value followed by a space: what the string builder holds. */
  function Spaced(values: seq<string>): string {
    if values == [] then "" else Spaced(values[..|values| - 1]) + values[|values| - 1] + " "
  }

  lemma {:induction false} SpacedAppend(a: seq<string>, b: seq<string>)
    ensures Spaced(a + b) == Spaced(a) + Spaced(b)
  {
    if b == [] {
      assert a + b == a;
    } else {
      assert (a + b)[..|a + b| - 1] == a + b[..|b| - 1];
      SpacedAppend(a, b[..|b| - 1]);
    }
  }

  /** Cutting the last space off leaves the values joined by spaces. */
  lemma {:induction false} SpacedIsJoined(values: seq<string>)
    requires values != []
    ensures Spaced(values) == Join(values, " ") + " "
  {
    if |values| == 1 {
      assert values[..0] == [];
    } else {
      SpacedIsJoined(values[1..]);
      SpacedAppend(values[..1], values[1..]);
      assert values == values[..1] + values[1..];
      assert Spaced(values[..1]) == values[0] + " " by {
        assert values[..1][..0] == [];
      }
    }
  }

  /**
   `outgoing` is the copy of the outgoing metadata in the context, `None` when there is none; `headers` are the
   headers that `SetHeaders` stored. The loop over `headers` may take the keys in any order.
   */
  method InsertMetadata(outgoing: Option<Values>, headers: Values, keyvals: seq<string>) returns (out: Values)
    requires Even(keyvals)
    ensures var before := if outgoing.None? then map[] else outgoing.value;
            forall key ::
              && (key in out <==> HasKey(before, headers, keyvals, key))
              && Get(out, key) == ValuesOf(before, headers, keyvals, key)
  {
    hide XGoogKey, Spaced, ValuesFor, Join;
    out := if outgoing.None? then map[] else outgoing.value;
    var merged;
    out, merged := AddContextHeaders(out, headers);
    out, merged := AddKeyvals(out, merged, keyvals);
    SpacedAppend(Get(headers, XGoogKey()), ValuesFor(keyvals, XGoogKey()));
    SpacedOfNone();
    if |merged| > 0 {
      SpacedIsJoined(Merged(headers, keyvals));
      out := out[XGoogKey() := [merged[..|merged| - 1]]];
    } else if Merged(headers, keyvals) != [] {
      SpacedIsJoined(Merged(headers, keyvals));
    }
  }

  /**
   Values that were there before stay in front of what is added, except for the merged header: there they stay only
   if nothing is given, or there were none, or they are the merged value already.
   */
  lemma ExistingValuesKeptIff(before: Values, headers: Values, keyvals: seq<string>, key: string)
    requires Even(keyvals)
    ensures Get(before, key) <= ValuesOf(before, headers, keyvals, key) <==>
            || key != XGoogKey() || Merged(headers, keyvals) == [] || Get(before, key) == []
            || Get(before, key) == [Join(Merged(headers, keyvals), " ")]
  {
  }

  /**
   Headers that were set on the context and headers that are given come out as if all had been given at once, those
   of the context first; for the merged header too.
   */
  lemma ContextThenArguments(before: Values, a: seq<string>, b: seq<string>, key: string)
    requires Even(a) && Even(b)
    ensures ValuesOf(before, Extend(map[], a), b, key) == ValuesOf(before, map[], a + b, key)
    ensures HasKey(before, Extend(map[], a), b, key) <==> HasKey(before, map[], a + b, key)
  {
    hide Extend, ValuesFor, Join, XGoogKey;
    ExtendedValues(map[], a, key);
    ValuesForAppend(a, b, key);
    ExtendedValues(map[], a, XGoogKey());
    ValuesForAppend(a, b, XGoogKey());
    var stored: Values, none: Values := Extend(map[], a), map[];
    assert Get(stored, key) == ValuesFor(a, key) && Get(stored, XGoogKey()) == ValuesFor(a, XGoogKey());
    assert Merged(stored, b) == Merged(none, a + b);
    var kept := Get(before, key);
    assert kept + Get(stored, key) + ValuesFor(b, key) == kept + Get(none, key) + ValuesFor(a + b, key);
  }

  /** The pieces between single spaces. */
  function Split(s: string): seq<string>
    decreases |s|
  {
    var i := IndexFunc(s, Is(' '));
    if i == |s| then [s] else [s[..i]] + Split(s[i + 1..])
  }

  lemma {:induction false} SplitHasNoSpaces(s: string)
    ensures forall i :: 0 <= i < |Split(s)| ==> ' ' !in Split(s)[i]
    decreases |s|
  {
    hide IndexFunc;
    var i := IndexFunc(s, Is(' '));
    if i < |s| {
      SplitHasNoSpaces(s[i + 1..]);
    }
  }

  lemma {:induction false} SplitOfJoin(values: seq<string>)
    requires values != [] && forall i :: 0 <= i < |values| ==> ' ' !in values[i]
    ensures Split(Join(values, " ")) == values
  {
    hide IndexFunc;
    var v, tail := values[0], values[1..];
    if tail == [] {
      FindAfter(v, ' ', "");
      assert values == [v];
    } else {
      var s := Join(values, " ");
      FindAfter(v, ' ', Join(tail, " "));
      assert s == v + [' '] + Join(tail, " ");
      assert s[..|v|] == v && s[|v| + 1..] == Join(tail, " ");
      SplitOfJoin(tail);
    }
  }

  /** The merged header is one value; it splits back into the given ones exactly when no space is in them. */
  lemma MergedSplitsBack(before: Values, headers: Values, keyvals: seq<string>)
    requires Even(keyvals) && Merged(headers, keyvals) != []
    ensures var merged, values := Merged(headers, keyvals), ValuesOf(before, headers, keyvals, XGoogKey());
            && |values| == 1
            && (Split(values[0]) == merged <==> forall i :: 0 <= i < |merged| ==> ' ' !in merged[i])
  {
    hide Split, Join, Merged, XGoogKey;
    var merged := Merged(headers, keyvals);
    SplitHasNoSpaces(Join(merged, " "));
    if forall i :: 0 <= i < |merged| ==> ' ' !in merged[i] {
      SplitOfJoin(merged);
    }
  }

  /** An earlier client header is lost when another is given. */
  lemma ClientHeaderReplaced()
    ensures var before: Values := map["x-goog-api-client" := ["a"]];
            ValuesOf(before, map[], ["x-goog-api-client", "b"], "x-goog-api-client") == ["b"]
  {
    ValuesForPair("x-goog-api-client", "b", "x-goog-api-client");
  }

  /** A context header without values makes an entry without values, unless it is the merged one. */
  lemma EmptyContextHeader(key: string)
    ensures HasKey(map[], map[key := []], [], key) <==> key != "x-goog-api-client"
    ensures ValuesOf(map[], map[key := []], [], key) == []
  {
  }

  lemma SpacedOfNone()
    ensures Spaced([]) == ""
  {
  }

  /** The first loop: all context headers but the merged one are appended; that one goes into the builder. */
  method AddContextHeaders(before: Values, headers: Values) returns (out: Values, merged: string)
    ensures merged == Spaced(Get(headers, XGoogKey()))
    ensures forall key :: key in out <==> key in before || (key in headers && key != XGoogKey())
    ensures forall key ::
              Get(out, key) == Get(before, key) + if key == XGoogKey() then [] else Get(headers, key)
  {
    hide XGoogKey, Spaced;
    SpacedOfNone();
    out, merged := before, "";
    var todo := headers.Keys;
    while todo != {}
      invariant todo <= headers.Keys
      invariant merged == if XGoogKey() in todo then "" else Spaced(Get(headers, XGoogKey()))
      invariant forall key ::
                  key in out <==> key in before || (key in headers && key !in todo && key != XGoogKey())
      invariant forall key ::
                  Get(out, key) ==
                  Get(before, key) + if key == XGoogKey() || key in todo then [] else Get(headers, key)
    {
      var k :| k in todo;
      todo := todo - {k};
      if k == XGoogKey() {
        merged := WriteAll(merged, headers[k]);
        continue;
      }
      out := out[k := Get(out, k) + headers[k]];
    }
  }

  method WriteAll(before: string, vals: seq<string>) returns (s: string)
    ensures s == before + Spaced(vals)
  {
    s := before;
    for j := 0 to |vals|
      invariant s == before + Spaced(vals[..j])
    {
      assert vals[..j + 1][..j] == vals[..j];
      s := s + vals[j];
      s := s + " ";
    }
    assert vals[..|vals|] == vals;
  }

  /** The second loop: every argument is appended to its key; those for the merged header also go into the builder. */
  method AddKeyvals(before: Values, start: string, keyvals: seq<string>) returns (out: Values, merged: string)
    requires Even(keyvals)
    ensures merged == start + Spaced(ValuesFor(keyvals, XGoogKey()))
    ensures forall key :: Get(out, key) == Get(before, key) + ValuesFor(keyvals, key)
    ensures forall key :: key in out <==> key in before || ValuesFor(keyvals, key) != []
  {
    hide XGoogKey, Spaced;
    SpacedOfNone();
    out, merged := before, start;
    var i := 0;
    while i < |keyvals|
      invariant 0 <= i <= |keyvals| && i % 2 == 0
      invariant merged == start + Spaced(ValuesFor(keyvals[..i], XGoogKey()))
      invariant out == Extend(before, keyvals[..i])
    {
      assert keyvals[..i + 2][..i] == keyvals[..i];
      ghost var given := ValuesFor(keyvals[..i], XGoogKey());
      out := out[keyvals[i] := Get(out, keyvals[i]) + [keyvals[i + 1]]];
      if keyvals[i] == XGoogKey() {
        SpacedStep(given, keyvals[i + 1]);
        merged := merged + keyvals[i + 1];
        merged := merged + " ";
        assert start + Spaced(given) + keyvals[i + 1] + " " == start + (Spaced(given) + keyvals[i + 1] + " ");
        assert ValuesFor(keyvals[..i + 2], XGoogKey()) == given + [keyvals[i + 1]];
      } else {
        assert ValuesFor(keyvals[..i + 2], XGoogKey()) == given;
      }
      i := i + 2;
    }
    assert keyvals[..i] == keyvals;
    forall key {
      ExtendedValues(before, keyvals, key);
    }
  }

  lemma SpacedStep(values: seq<string>, v: string)
    ensures Spaced(values + [v]) == Spaced(values) + v + " "
  {
  }

  // ---------------------------------------------------------------- XGoogHeader

  /** The printed list with a space in front of every pair. */
  function Printed(keyvals: seq<string>): string
    requires Even(keyvals)
  {
    var n := |keyvals|;
    if n == 0 then "" else Printed(keyvals[..n - 2]) + " " + keyvals[n - 2] + "/" + keyvals[n - 1]
  }

  method XGoogHeader(keyvals: seq<string>) returns (s: string)
    requires Even(keyvals)
    ensures s == Header(keyvals)
  {
    if |keyvals| == 0 {
      return "";
    }
    var buf := "";
    var i := 0;
    while i < |keyvals|
      invariant 0 <= i <= |keyvals| && i % 2 == 0
      invariant buf == Printed(keyvals[..i])
    {
      assert keyvals[..i + 2][..i] == keyvals[..i];
      buf := buf + " ";
      buf := buf + keyvals[i];
      buf := buf + "/";
      buf := buf + keyvals[i + 1];
      i := i + 2;
    }
    assert keyvals[..i] == keyvals;
    s := buf[1..];
  }

  function Header(keyvals: seq<string>): string
    requires Even(keyvals)
  {
    var p := Printed(keyvals);
    if p == "" then "" else p[1..]
  }

  /** The text before the first `c` when `a` has none. */
  lemma FindAfter(a: string, c: char, b: string)
    requires c !in a
    ensures IndexFunc(a + [c] + b, Is(c)) == |a|
    ensures IndexFunc(a, Is(c)) == |a|
  {
    assert a + [c] + b == a + ([c] + b) && a + "" == a;
    IndexFuncIs(a, [c] + b, Is(c));
    IndexFuncIs(a, "", Is(c));
  }

  /**
   The reader of such a header: parts are separated by single spaces, and each part is a key and a value around its
   first slash. The empty header is the empty list.
   */
  function Parse(s: string): Option<seq<string>> {
    if s == "" then Some([]) else ParseParts(s)
  }

  function ParseParts(s: string): Option<seq<string>>
    decreases |s|
  {
    var end := IndexFunc(s, Is(' '));
    var part := s[..end];
    var slash := IndexFunc(part, Is('/'));
    if slash == |part| then None
    else
      var pair := [part[..slash], part[slash + 1..]];
      if end == |s| then Some(pair)
      else match ParseParts(s[end + 1..])
        case None => None
        case Some(tail) => Some(pair + tail)
  }

  predicate CleanPart(s: string, isKey: bool) {
    ' ' !in s && (isKey ==> '/' !in s)
  }

  /** No space anywhere, no slash in a key. */
  predicate Clean(keyvals: seq<string>)
    requires Even(keyvals)
  {
    forall i :: 0 <= i < |keyvals| ==> CleanPart(keyvals[i], i % 2 == 0)
  }

  lemma {:induction false} PrintedFromFront(keyvals: seq<string>)
    requires Even(keyvals) && keyvals != []
    ensures Printed(keyvals) == " " + keyvals[0] + "/" + keyvals[1] + Printed(keyvals[2..])
  {
    var n := |keyvals|;
    if n > 2 {
      PrintedFromFront(keyvals[..n - 2]);
      assert keyvals[..n - 2][2..] == keyvals[2..][..n - 4];
    } else {
      assert keyvals[..0] == [] && keyvals[2..] == [];
    }
  }

  /** A clean pair is told apart at its slash. */
  lemma SplitPair(k: string, v: string)
    requires '/' !in k
    ensures var part := k + "/" + v;
            var slash := IndexFunc(part, Is('/'));
            slash < |part| && [part[..slash], part[slash + 1..]] == [k, v]
  {
    hide IndexFunc;
    FindAfter(k, '/', v);
    var part := k + "/" + v;
    assert part[..|k|] == k && part[|k| + 1..] == v;
  }

  /** Parsing takes a last pair whole. */
  lemma ParseLastPair(k: string, v: string)
    requires ' ' !in k && ' ' !in v && '/' !in k
    ensures ParseParts(k + "/" + v) == Some([k, v])
  {
    hide IndexFunc;
    var part := k + "/" + v;
    SplitPair(k, v);
    FindAfter(part, ' ', "");
    assert part[..|part|] == part;
  }

  /** Parsing takes a clean pair off the front. */
  lemma ParseFirstPair(k: string, v: string, rest: string)
    requires ' ' !in k && ' ' !in v && '/' !in k
    ensures ParseParts(k + "/" + v + " " + rest) ==
            match ParseParts(rest) case None => None case Some(tail) => Some([k, v] + tail)
  {
    hide IndexFunc;
    var part := k + "/" + v;
    var s := part + " " + rest;
    SplitPair(k, v);
    FindAfter(part, ' ', rest);
    assert s[..|part|] == part && s[|part| + 1..] == rest;
  }

  lemma {:induction false} ParsePrinted(keyvals: seq<string>)
    requires Even(keyvals) && Clean(keyvals) && keyvals != []
    ensures ParseParts(Header(keyvals)) == Some(keyvals)
    decreases |keyvals|
  {
    hide ParseParts, Printed;
    PrintedFromFront(keyvals);
    var k, v, tail := keyvals[0], keyvals[1], keyvals[2..];
    assert CleanPart(keyvals[0], 0 % 2 == 0) && CleanPart(keyvals[1], 1 % 2 == 0);
    assert Header(keyvals) == k + "/" + v + Printed(tail);
    if tail == [] {
      PrintedOfNone();
      ParseLastPair(k, v);
      assert k + "/" + v + "" == k + "/" + v;
      assert keyvals == [k, v];
    } else {
      PrintedFromFront(tail);
      assert Printed(tail) == " " + Header(tail);
      assert k + "/" + v + (" " + Header(tail)) == k + "/" + v + " " + Header(tail);
      ParseFirstPair(k, v, Header(tail));
      CleanTail(keyvals);
      ParsePrinted(tail);
      assert keyvals == [k, v] + tail;
    }
  }

  lemma CleanTail(keyvals: seq<string>)
    requires Even(keyvals) && Clean(keyvals) && keyvals != []
    ensures Clean(keyvals[2..])
  {
    hide CleanPart;
    forall i | 0 <= i < |keyvals| - 2
      ensures CleanPart(keyvals[2..][i], i % 2 == 0)
    {
      assert keyvals[2..][i] == keyvals[i + 2] && (i + 2) % 2 == i % 2;
    }
  }

  lemma PrintedOfNone()
    ensures Printed([]) == ""
  {
  }

  lemma CleanConcat(a: seq<string>, b: seq<string>)
    requires Even(a) && Even(b) && Clean(a) && Clean(b)
    ensures Clean(a + b)
  {
    hide CleanPart;
    var all := a + b;
    forall i | 0 <= i < |all|
      ensures CleanPart(all[i], i % 2 == 0)
    {
      if i < |a| {
        assert all[i] == a[i];
      } else {
        var j := i - |a|;
        assert all[i] == b[j] && j % 2 == i % 2;
      }
    }
  }

  /** A part without spaces is a clean pair around its first slash. */
  lemma PartIsCleanPair(part: string, slash: nat)
    requires ' ' !in part && slash < |part| && '/' !in part[..slash]
    ensures Clean([part[..slash], part[slash + 1..]])
  {
  }

  /** Whatever is parsed is clean. */
  lemma {:induction false} ParsedIsClean(s: string)
    ensures ParseParts(s).Some? ==> Even(ParseParts(s).value) && Clean(ParseParts(s).value)
    decreases |s|
  {
    hide IndexFunc, Clean;
    var end := IndexFunc(s, Is(' '));
    var part := s[..end];
    var slash := IndexFunc(part, Is('/'));
    if slash < |part| {
      PartIsCleanPair(part, slash);
      if end < |s| {
        ParsedIsClean(s[end + 1..]);
        if ParseParts(s[end + 1..]).Some? {
          CleanConcat([part[..slash], part[slash + 1..]], ParseParts(s[end + 1..]).value);
        }
      }
    }
  }

  /** Reading a printed header gives the list back exactly when no space, and no slash in a key, is in the way. */
  lemma HeaderRoundTrip(keyvals: seq<string>)
    requires Even(keyvals)
    ensures Parse(Header(keyvals)) == Some(keyvals) <==> Clean(keyvals)
  {
    if keyvals != [] {
      PrintedFromFront(keyvals);
      assert "/" <= Header(keyvals)[|keyvals[0]|..];
      if Clean(keyvals) {
        ParsePrinted(keyvals);
      } else {
        ParsedIsClean(Header(keyvals));
      }
    }
  }
}
