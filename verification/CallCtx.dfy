/**
 The headers that a context carries. A context holds a map object, and the map holds slices: views of backing
 arrays that may have room to spare, into which `append` writes in place. Contexts are shared, so what matters is
 who else sees such a write.
 */
module CallCtxs {
  import opened Prelude
  import opened Headers

  /** The first `len` elements of a backing array; `NilSlice` has none. */
  datatype Slice = NilSlice | Slice(buf: array<string>, len: nat)
  {
    predicate Valid() {
      Slice? ==> len <= buf.Length
    }

    ghost function Repr(): set<object> {
      if NilSlice? then {} else {buf}
    }

    function Contents(): seq<string>
      requires Valid()
      reads if Slice? then {buf} else {}
    {
      if NilSlice? then [] else buf[..len]
    }
  }

  /** `append(s, v)`: in place when there is room, otherwise into a new array of any sufficient capacity. */
  method Append(s: Slice, v: string) returns (t: Slice)
    requires s.Valid()
    modifies s.Repr()
    ensures t.Slice? && t.Valid() && t.Contents() == old(s.Contents()) + [v]
    ensures s.Contents() == old(s.Contents())
    ensures (s.Slice? && t.buf == s.buf) || fresh(t.buf)
  {
    if s.Slice? && s.len < s.buf.Length {
      s.buf[s.len] := v;
      assert s.buf[..s.len] == old(s.buf[..s.len]);
      return Slice(s.buf, s.len + 1);
    }
    var contents := s.Contents();
    var n := |contents|;
    var capacity :| capacity > n;
    var buf := new string[capacity](_ => "");
    for i := 0 to n
      invariant buf[..i] == contents[..i] && s.Contents() == contents
    {
      buf[i] := contents[i];
    }
    buf[n] := v;
    assert buf[..n + 1] == contents + [v];
    t := Slice(buf, n + 1);
  }

  class HeaderMap {
    var m: map<string, Slice>

    constructor ()
      ensures Valid() && fresh(Repr) && View() == map[]
    {
      m := map[];
      Repr := {this};
    }

    ghost var Repr: set<object>  // this map and its backing arrays

    /** No two keys share a backing array. */
    ghost predicate Valid()
      reads this, Repr
    {
      && this in Repr
      && (forall k :: k in m ==> m[k].Valid() && (m[k].Slice? ==> m[k].buf in Repr))
      && (forall k :: k in m && m[k].Slice? ==> OnlyOwner(k, m[k].buf))
    }

    /** No key but `key` has this backing array. */
    ghost predicate OnlyOwner(key: string, buf: array<string>)
      reads this
    {
      forall k :: k in m && m[k].Slice? && m[k].buf == buf ==> k == key
    }

    ghost function View(): Values
      requires Valid()
      reads this, Repr
    {
      map k | k in m :: m[k].Contents()
    }

    /** The values of one key, copied out. */
    method Values(key: string) returns (v: seq<string>)
      requires Valid() && key in m
      ensures key in View() && v == View()[key]
    {
      v := m[key].Contents();
    }

    /** `h[key] = s`, for a slice on an array that no other key has. */
    method Store(key: string, s: Slice)
      requires Valid() && s.Slice? && s.Valid() && OnlyOwner(key, s.buf)
      modifies this
      ensures Valid() && Repr == old(Repr) + {s.buf}
      ensures View() == old(View())[key := s.Contents()]
    {
      m := m[key := s];
      Repr := Repr + {s.buf};
    }

    /** Stores `v` in a new array that it fills. */
    method Put(key: string, v: seq<string>)
      requires Valid()
      modifies this
      ensures Valid() && fresh(Repr - old(Repr))
      ensures View() == old(View())[key := v]
    {
      var vc := new string[|v|](i requires 0 <= i < |v| => v[i]);
      assert vc[..|v|] == v;
      hide View;
      Store(key, Slice(vc, |v|));
    }

    /** `append(h[key], v)`: an append in place lies beyond what any slice of the map shows. */
    method AppendTo(key: string, v: string) returns (t: Slice)
      requires Valid()
      modifies Repr
      ensures Valid() && m == old(m) && Repr == old(Repr) && View() == old(View())
      ensures t.Slice? && t.Valid() && t.Contents() == Get(View(), key) + [v]
      ensures OnlyOwner(key, t.buf) && (t.buf in Repr || fresh(t.buf))
    {
      t := Append(if key in m then m[key] else NilSlice, v);
    }

    /** `h[key] = append(h[key], v)`. */
    method Add(key: string, v: string)
      requires Valid()
      modifies Repr
      ensures Valid() && fresh(Repr - old(Repr))
      ensures View() == old(View())[key := Get(old(View()), key) + [v]]
    {
      hide View, Slice.Contents, OnlyOwner;
      var t := AppendTo(key, v);
      Store(key, t);
    }
  }

  /** `nil` when the context carries no headers. */
  ghost function ViewOf(h: HeaderMap?): Values
    requires h != null ==> h.Valid()
    reads h, if h == null then {} else h.Repr
  {
    if h == null then map[] else h.View()
  }

  lemma KeysOfView(h: HeaderMap)
    requires h.Valid()
    ensures h.View().Keys == h.m.Keys
  {
  }

  /** A new map whose slices are copies. */
  method CloneHeaders(h: HeaderMap) returns (c: HeaderMap)
    requires h.Valid()
    ensures fresh(c.Repr) && c.Valid() && c.View() == h.View()
  {
    hide HeaderMap.Valid, HeaderMap.View;
    c := new HeaderMap();
    ghost var view := h.View();
    KeysOfView(h);
    var todo := h.m.Keys;
    while todo != {}
      invariant todo <= h.m.Keys && h.Valid() && h.View() == view
      invariant fresh(c.Repr) && c.Valid()
      invariant c.View() == view - todo
    {
      var k :| k in todo;
      todo := todo - {k};
      var v := h.Values(k);
      c.Put(k, v);
    }
    assert view - {} == view;
  }

  /** A new map for a new context; no map or array that existed before is written. */
  method SetHeaders(ctx: HeaderMap?, keyvals: seq<string>) returns (h: HeaderMap)
    requires Even(keyvals) && (ctx != null ==> ctx.Valid())
    ensures fresh(h.Repr) && h.Valid()
    ensures h.View() == Extend(ViewOf(ctx), keyvals)
  {
    hide HeaderMap.Valid, HeaderMap.View;
    if ctx == null {
      h := new HeaderMap();
    } else {
      h := CloneHeaders(ctx);
    }
    var i := 0;
    while i < |keyvals|
      invariant 0 <= i <= |keyvals| && i % 2 == 0
      invariant fresh(h.Repr) && h.Valid()
      invariant h.View() == Extend(ViewOf(ctx), keyvals[..i])
    {
      assert keyvals[..i + 2][..i] == keyvals[..i];
      h.Add(keyvals[i], keyvals[i + 1]);
      i := i + 2;
    }
    assert keyvals[..i] == keyvals;
  }

  // ---------------------------------------------------------------- whole programs

  /** A call of `SetHeaders` on the context that is number `parent` among those made so far. */
  datatype Call = Call(parent: nat, keyvals: seq<string>)

  predicate WellFormed(calls: seq<Call>) {
    forall i :: 0 <= i < |calls| ==> calls[i].parent <= i && Even(calls[i].keyvals)
  }

  /** The headers of context `i`: what was set on the way from the root to it, and nothing else. */
  function HeadersOf(calls: seq<Call>, i: nat): Values
    requires WellFormed(calls) && i <= |calls|
  {
    if i == 0 then map[] else Extend(HeadersOf(calls, calls[i - 1].parent), calls[i - 1].keyvals)
  }

  /**
   Any program that keeps setting headers on any of the contexts it has, shared as it likes: at the end every
   context still shows exactly the headers of its own path.
   */
  method SetAll(calls: seq<Call>) returns (ctxs: seq<HeaderMap?>)
    requires WellFormed(calls)
    ensures |ctxs| == |calls| + 1
    ensures forall i :: 0 <= i < |ctxs| ==>
              (ctxs[i] != null ==> ctxs[i].Valid()) && ViewOf(ctxs[i]) == HeadersOf(calls, i)
  {
    hide HeaderMap.Valid, HeaderMap.View, Extend;
    ctxs := [null];
    for i := 0 to |calls|
      invariant |ctxs| == i + 1
      invariant forall j :: 0 <= j < |ctxs| ==>
                  (ctxs[j] != null ==> ctxs[j].Valid()) && ViewOf(ctxs[j]) == HeadersOf(calls, j)
    {
      var h := SetHeaders(ctxs[calls[i].parent], calls[i].keyvals);
      ctxs := ctxs + [h];
    }
  }

  /** The values of one key, read off the path. */
  function PathValues(calls: seq<Call>, i: nat, key: string): seq<string>
    requires WellFormed(calls) && i <= |calls|
  {
    if i == 0 then []
    else PathValues(calls, calls[i - 1].parent, key) + ValuesFor(calls[i - 1].keyvals, key)
  }

  lemma {:induction false} HeadersAreThePath(calls: seq<Call>, i: nat, key: string)
    requires WellFormed(calls) && i <= |calls|
    ensures Get(HeadersOf(calls, i), key) == PathValues(calls, i, key)
  {
    if i > 0 {
      HeadersAreThePath(calls, calls[i - 1].parent, key);
      ExtendedValues(HeadersOf(calls, calls[i - 1].parent), calls[i - 1].keyvals, key);
    }
  }
}
