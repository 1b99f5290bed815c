/** Shared vocabulary: optional values, and the few string functions of the Go library that the model needs. */
module Prelude {
  datatype Option<+T> = None | Some(value: T)

  function Min(a: int, b: int): int {
    if a < b then a else b
  }

  function Max(a: int, b: int): int {
    if a < b then b else a
  }

  /** `unicode.IsSpace`. */
  predicate IsSpace(c: char) {
    || '\U{0009}' <= c <= '\U{000D}'
    || c == ' '
    || c == '\U{0085}' || c == '\U{00A0}' || c == '\U{1680}'
    || '\U{2000}' <= c <= '\U{200A}'
    || c == '\U{2028}' || c == '\U{2029}' || c == '\U{202F}' || c == '\U{205F}' || c == '\U{3000}'
  }

  predicate NoSpace(s: string) {
    forall i :: 0 <= i < |s| ==> !IsSpace(s[i])
  }

  /** `strings.Contains`. */
  predicate Contains(s: string, sub: string) {
    exists i :: 0 <= i <= |s| && sub <= s[i..]
  }

  function TrimLeft(s: string): string {
    if s != "" && IsSpace(s[0]) then TrimLeft(s[1..]) else s
  }

  function TrimRight(s: string): string {
    if s != "" && IsSpace(s[|s| - 1]) then TrimRight(s[..|s| - 1]) else s
  }

  /** `strings.TrimSpace`. */
  function TrimSpace(s: string): string {
    TrimRight(TrimLeft(s))
  }

  /** What trimming does: it cuts white space off both ends, and nothing else. */
  lemma TrimSpaceIs(s: string) returns (before: string, after: string)
    ensures s == before + TrimSpace(s) + after
    ensures (forall c :: c in before ==> IsSpace(c)) && (forall c :: c in after ==> IsSpace(c))
    ensures var t := TrimSpace(s); t != "" ==> !IsSpace(t[0]) && !IsSpace(t[|t| - 1])
  {
    hide IsSpace;
    before := TrimLeftIs(s);
    after := TrimRightIs(TrimLeft(s));
    assert s == before + (TrimSpace(s) + after);
  }

  lemma {:induction false} TrimLeftIs(s: string) returns (before: string)
    ensures s == before + TrimLeft(s) && forall c :: c in before ==> IsSpace(c)
    ensures TrimLeft(s) != "" ==> !IsSpace(TrimLeft(s)[0])
  {
    hide IsSpace;
    before := "";
    if s != "" && IsSpace(s[0]) {
      before := TrimLeftIs(s[1..]);
      before := [s[0]] + before;
    }
  }

  lemma {:induction false} TrimRightIs(s: string) returns (after: string)
    ensures s == TrimRight(s) + after && forall c :: c in after ==> IsSpace(c)
    ensures TrimRight(s) != "" ==> !IsSpace(TrimRight(s)[|TrimRight(s)| - 1])
  {
    hide IsSpace;
    after := "";
    if s != "" && IsSpace(s[|s| - 1]) {
      after := TrimRightIs(s[..|s| - 1]);
      after := after + [s[|s| - 1]];
    }
  }

  // ---------------------------------------------------------------- searching

  /** `strings.IndexFunc`: where `f` first holds, or the length of `s` where that returns -1. */
  function IndexFunc(s: string, f: char -> bool): (i: nat)
    ensures i <= |s| && (i < |s| ==> f(s[i])) && forall j :: 0 <= j < i ==> !f(s[j])
  {
    if s == "" || f(s[0]) then 0 else IndexFunc(s[1..], f) + 1
  }

  /** The index is settled by a prefix free of `f` and what stands right after it. */
  lemma IndexFuncIs(a: string, b: string, f: char -> bool)
    requires forall j :: 0 <= j < |a| ==> !f(a[j])
    requires b == "" || f(b[0])
    ensures IndexFunc(a + b, f) == |a|
  {
    hide IndexFunc;
    var s := a + b;
    assert forall j :: 0 <= j < |a| ==> s[j] == a[j];
    assert b != "" ==> s[|a|] == b[0];
  }

  /** The character `c` itself, as something to search for. */
  function Is(c: char): char -> bool {
    x => x == c
  }

  /** A text that trimming cannot cut and a line break cannot split. */
  predicate Solid(sub: string) {
    sub != "" && !IsSpace(sub[0]) && !IsSpace(sub[|sub| - 1]) && '\n' !in sub
  }

  lemma ContainsIntro(s: string, sub: string, before: string, after: string)
    requires s == before + sub + after
    ensures Contains(s, sub)
  {
    assert s[|before|..] == sub + after;
  }

  lemma ContainsElim(s: string, sub: string) returns (before: string, after: string)
    requires Contains(s, sub)
    ensures s == before + sub + after
  {
    var i :| 0 <= i <= |s| && sub <= s[i..];
    before, after := s[..i], s[i..][|sub|..];
    assert s[i..] == sub + after;
  }

  lemma ContainsNeedsFirst(s: string, sub: string)
    requires sub != "" && sub[0] !in s
    ensures !Contains(s, sub)
  {
    assert forall i :: 0 <= i < |s| && sub <= s[i..] ==> s[i] == sub[0];
  }

  lemma {:induction false} ContainsTrimLeft(s: string, sub: string)
    requires Solid(sub)
    ensures Contains(TrimLeft(s), sub) <==> Contains(s, sub)
  {
    hide Contains, IsSpace;
    if s != "" && IsSpace(s[0]) {
      ContainsTrimLeft(s[1..], sub);
      if Contains(s, sub) {
        var before, after := ContainsElim(s, sub);
        assert s[|before|] == sub[0];
        ContainsIntro(s[1..], sub, before[1..], after);
      } else if Contains(s[1..], sub) {
        var before, after := ContainsElim(s[1..], sub);
        ContainsIntro(s, sub, s[..1] + before, after);
      }
    }
  }

  lemma {:induction false} ContainsTrimRight(s: string, sub: string)
    requires Solid(sub)
    ensures Contains(TrimRight(s), sub) <==> Contains(s, sub)
  {
    hide Contains, IsSpace;
    var n := |s| - 1;
    if s != "" && IsSpace(s[n]) {
      ContainsTrimRight(s[..n], sub);
      if Contains(s, sub) {
        var before, after := ContainsElim(s, sub);
        assert s[|before| + |sub| - 1] == sub[|sub| - 1];
        ContainsIntro(s[..n], sub, before, after[..|after| - 1]);
      } else if Contains(s[..n], sub) {
        var before, after := ContainsElim(s[..n], sub);
        ContainsIntro(s, sub, before, after + s[n..]);
      }
    }
  }

  /** Trimming neither adds nor removes a solid text. */
  lemma ContainsTrimSpace(s: string, sub: string)
    requires Solid(sub)
    ensures Contains(TrimSpace(s), sub) <==> Contains(s, sub)
  {
    hide Contains, Solid, TrimLeft, TrimRight;
    ContainsTrimLeft(s, sub);
    ContainsTrimRight(TrimLeft(s), sub);
  }

  /** A solid text lies on one side of a line break. */
  lemma ContainsTwoLines(a: string, b: string, sub: string)
    requires Solid(sub)
    ensures Contains(a + "\n" + b, sub) <==> Contains(a, sub) || Contains(b, sub)
  {
    hide Contains, IsSpace;
    var s := a + "\n" + b;
    if Contains(a, sub) {
      var before, after := ContainsElim(a, sub);
      ContainsIntro(s, sub, before, after + "\n" + b);
    } else if Contains(b, sub) {
      var before, after := ContainsElim(b, sub);
      ContainsIntro(s, sub, a + "\n" + before, after);
    } else if Contains(s, sub) {
      var before, after := ContainsElim(s, sub);
      assert s[..|a|] == a && s[|a| + 1..] == b && s[|a|] == '\n';
      assert forall j :: |before| <= j < |before| + |sub| ==> s[j] == sub[j - |before|];
      if |before| + |sub| <= |a| {
        assert s[..|a|] == before + sub + after[..|a| - |before| - |sub|];
        ContainsIntro(a, sub, before, after[..|a| - |before| - |sub|]);
      } else if |a| < |before| {
        assert s[|a| + 1..] == before[|a| + 1..] + sub + after;
        ContainsIntro(b, sub, before[|a| + 1..], after);
      } else {
        assert false;
      }
    }
  }

  /** `strings.Join`. */
  function Join(parts: seq<string>, sep: string): string {
    if |parts| == 0 then "" else if |parts| == 1 then parts[0] else parts[0] + sep + Join(parts[1..], sep)
  }

  function Concat(parts: seq<string>): string {
    if parts == [] then "" else parts[0] + Concat(parts[1..])
  }

  lemma {:induction false} EmptyConcat(parts: seq<string>)
    requires forall i :: 0 <= i < |parts| ==> parts[i] == ""
    ensures Concat(parts) == ""
  {
    if parts != [] {
      EmptyConcat(parts[1..]);
    }
  }

  lemma {:induction false} ConcatOfOne(parts: seq<string>, i: nat)
    requires i < |parts| && forall j :: 0 <= j < |parts| && j != i ==> parts[j] == ""
    ensures Concat(parts) == parts[i]
  {
    if i == 0 {
      EmptyConcat(parts[1..]);
    } else {
      ConcatOfOne(parts[1..], i - 1);
    }
  }

  lemma ContainsTrans(s: string, sub: string, inner: string)
    requires Contains(s, sub) && Contains(sub, inner)
    ensures Contains(s, inner)
  {
    hide Contains;
    var a, b := ContainsElim(s, sub);
    var c, d := ContainsElim(sub, inner);
    ContainsIntro(s, inner, a + c, d + b);
  }

  lemma {:induction false} ConcatContains(parts: seq<string>, i: nat)
    requires i < |parts|
    ensures Contains(Concat(parts), parts[i])
  {
    hide Contains;
    var tail := Concat(parts[1..]);
    if i == 0 {
      ContainsIntro(Concat(parts), parts[0], "", tail);
    } else {
      ConcatContains(parts[1..], i - 1);
      ContainsIntro(Concat(parts), tail, parts[0], "");
      ContainsTrans(Concat(parts), tail, parts[i]);
    }
  }

  lemma {:induction false} JoinContains(parts: seq<string>, sep: string, i: nat)
    requires i < |parts|
    ensures Contains(Join(parts, sep), parts[i])
  {
    hide Contains;
    var all := Join(parts, sep);
    if i == 0 {
      ContainsIntro(all, parts[0], "", if |parts| == 1 then "" else sep + Join(parts[1..], sep));
    } else {
      JoinContains(parts[1..], sep, i - 1);
      var tail := Join(parts[1..], sep);
      ContainsIntro(all, tail, parts[0] + sep, "");
      ContainsTrans(all, tail, parts[i]);
    }
  }

  const DIGITS := "0123456789"

  /** `strconv.Itoa`. */
  function Itoa(n: int): string
    decreases n < 0, if n < 0 then -n else n
  {
    if n < 0 then "-" + Itoa(-n)
    else if n < 10 then [DIGITS[n]]
    else Itoa(n / 10) + [DIGITS[n % 10]]
  }

  /** The number that a decimal string denotes. */
  function DecimalValue(s: string): int {
    if s == "" then 0
    else DecimalValue(s[..|s| - 1]) * 10 + (s[|s| - 1] as int - '0' as int)
  }

  lemma {:induction false} ItoaRoundTrip(n: nat)
    ensures DecimalValue(Itoa(n)) == n
  {
    if n < 10 {
      assert DIGITS[n] as int == '0' as int + n;
      assert Itoa(n)[..0] == "";
    } else {
      ItoaRoundTrip(n / 10);
      assert DIGITS[n % 10] as int == '0' as int + n % 10;
      assert Itoa(n)[..|Itoa(n)| - 1] == Itoa(n / 10);
    }
  }

  /** A negative number is printed as a minus sign and its absolute value. */
  lemma ItoaNegative(n: int)
    requires n < 0
    ensures Itoa(n) == "-" + Itoa(-n) && DecimalValue(Itoa(n)[1..]) == -n
  {
    hide DecimalValue;
    ItoaRoundTrip(-n);
    var digits := Itoa(-n);
    assert Itoa(n) == "-" + digits;
    hide Itoa;
    assert ("-" + digits)[1..] == digits;
  }

  // ---------------------------------------------------------------- alternating lists of keys and values

  predicate Even(keyvals: seq<string>) {
    |keyvals| % 2 == 0
  }

  /** The values given for `key`, in order. */
  function ValuesFor(keyvals: seq<string>, key: string): seq<string>
    requires Even(keyvals)
  {
    var n := |keyvals|;
    if n == 0 then []
    else ValuesFor(keyvals[..n - 2], key) + (if keyvals[n - 2] == key then [keyvals[n - 1]] else [])
  }

  lemma {:induction false} ValuesForAppend(a: seq<string>, b: seq<string>, key: string)
    requires Even(a) && Even(b)
    ensures ValuesFor(a + b, key) == ValuesFor(a, key) + ValuesFor(b, key)
  {
    if b == [] {
      assert a + b == a;
    } else {
      assert (a + b)[..|a + b| - 2] == a + b[..|b| - 2];
      ValuesForAppend(a, b[..|b| - 2], key);
    }
  }

  lemma ValuesForPair(k: string, v: string, key: string)
    ensures ValuesFor([k, v], key) == if k == key then [v] else []
  {
    assert [k, v][..0] == [];
  }
}
