/**
 The content sniffer: a buffering adapter over any reader.
 A reader is described by the bytes it still has to deliver and the error that comes after them, which it keeps
 returning from then on; how it cuts the bytes into reads is its own affair.
 */
module ContentTypes {
  import opened Prelude

  const SNIFF_BUFF_SIZE := 512

  datatype ReadError = EOF | Failure(code: int)

  /** The bytes that are looked at. */
  function Head(bytes: seq<bv8>): seq<bv8> {
    bytes[..Min(SNIFF_BUFF_SIZE, |bytes|)]
  }

  lemma HeadIs(first: seq<bv8>, rest: seq<bv8>)
    requires |first| == SNIFF_BUFF_SIZE || (|first| < SNIFF_BUFF_SIZE && rest == [])
    ensures Head(first + rest) == first
  {
  }

  /** `http.DetectContentType`: a function of the bytes that never returns an empty string. */
  ghost predicate IsDetector(detect: seq<bv8> -> string) {
    forall bytes :: detect(bytes) != ""
  }

  /**
   The reader at the bottom. It may cut its bytes into pieces of any size and return empty reads, though not for ever.
   An eager one returns its final error together with the last piece, another one alone.
   */
  class Source {
    var rest: seq<bv8>
    const final: ReadError
    const eager: bool
    var idle: nat  // empty reads still to come before something happens

    constructor (bytes: seq<bv8>, final: ReadError, eager: bool, idle: nat)
      ensures rest == bytes && this.final == final && this.eager == eager
    {
      rest, this.final, this.eager, this.idle := bytes, final, eager, idle;
    }

    method Read(size: nat) returns (out: seq<bv8>, err: Option<ReadError>)
      modifies this
      ensures |out| <= size && old(rest) == out + rest
      ensures err.Some? ==> rest == [] && err.value == final
      ensures out != [] ==> (err.Some? <==> eager && rest == [])
      ensures size > 0 && err.None? && out == [] ==> idle < old(idle)
    {
      out, err := [], None;
      if idle > 0 && size > 0 {
        idle := idle - 1;
      } else if rest == [] {
        err := Some(final);
      } else {
        var n: nat :| n <= size && n <= |rest| && (size > 0 ==> n > 0);
        out, rest := rest[..n], rest[n..];
        var pauses: nat :| true;
        idle := pauses;
        if rest == [] && eager && n > 0 {
          err := Some(final);
        }
      }
    }
  }

  /** Something that can be read: a plain reader, one that knows its content type, or a sniffer around another. */
  datatype Media =
    | Raw(source: Source)
    | Typed(source: Source, ctype: string)
    | Sniffed(sniffer: Sniffer)
  {
    ghost function Repr(): set<object> {
      match this case Sniffed(s) => {s} + s.Repr case _ => {source}
    }

    ghost predicate Valid()
      reads Repr()
      decreases Repr(), 1
    {
      Sniffed? ==> sniffer.Valid()
    }

    /** The bytes still to be delivered. */
    ghost function Rest(): seq<bv8>
      requires Valid()
      reads Repr()
      decreases Repr(), 3
    {
      match this case Sniffed(s) => s.Rest() case _ => source.rest
    }

    /** The error that comes after them. */
    ghost function Final(): ReadError
      requires Valid()
      reads Repr()
      decreases Repr(), 3
    {
      match this case Sniffed(s) => s.Final() case _ => source.final
    }

    /** The final error will come together with the last bytes, if there are any. */
    ghost predicate Together()
      requires Valid()
      reads Repr()
      decreases Repr(), 3
    {
      match this case Sniffed(s) => s.Together() case _ => source.eager
    }

    /** Sniffers in the stack that have not sniffed yet. */
    ghost function Unsniffed(): nat
      requires Valid()
      reads Repr()
      decreases Repr(), 3
    {
      match this case Sniffed(s) => s.Unsniffed() case _ => 0
    }

    ghost function Idle(): nat
      requires Valid()
      reads Repr()
      decreases Repr(), 3
    {
      match this case Sniffed(s) => s.Idle() case _ => source.idle
    }

    method Read(size: nat) returns (out: seq<bv8>, err: Option<ReadError>)
      requires Valid()
      modifies Repr()
      ensures Valid() && Final() == old(Final())
      ensures |out| <= size && old(Rest()) == out + Rest()
      ensures err.Some? ==> Rest() == [] && err.value == Final()
      ensures out != [] ==> (err.Some? <==> old(Together()) && Rest() == [])
      ensures Rest() != [] ==> Together() == old(Together())
      ensures Unsniffed() <= old(Unsniffed())
      ensures size > 0 && err.None? && out == [] ==> Unsniffed() < old(Unsniffed()) || Idle() < old(Idle())
      decreases Repr(), 1
    {
      match this {
        case Sniffed(s) => out, err := s.Read(size);
        case Raw(source) => out, err := source.Read(size);
        case Typed(source, _) => out, err := source.Read(size);
      }
    }

    /** `io.ReadAll(io.LimitReader(media, limit))`: `None` for a nil error. */
    method ReadAllLimited(limit: nat) returns (b: seq<bv8>, err: Option<ReadError>)
      requires Valid()
      modifies Repr()
      ensures Valid() && Final() == old(Final())
      ensures |b| <= limit && old(Rest()) == b + Rest()
      ensures err.Some? ==> Rest() == [] && err.value == Final() && Final() != EOF
      ensures err.None? ==> |b| == limit || (Rest() == [] && Final() == EOF)
      ensures limit > 0 ==> (err.Some? <==> Final() != EOF && ErrorWithin(old(Rest()), old(Together()), limit))
      ensures Rest() != [] ==> Together() == old(Together())
      ensures Unsniffed() <= old(Unsniffed())
      decreases Repr(), 2
    {
      b, err := [], None;
      var capacity, n := 512, limit;  // the buffer of ReadAll and the count of LimitReader
      while true
        invariant Valid() && Final() == old(Final())
        invariant n == limit - |b| >= 0 && |b| < capacity && old(Rest()) == b + Rest()
        invariant Rest() != [] ==> Together() == old(Together())
        invariant b != [] && old(Together()) ==> Rest() != []
        invariant Unsniffed() <= old(Unsniffed())
        decreases |Rest()|, Unsniffed(), Idle()
      {
        if n <= 0 {
          return;
        }
        ghost var rest := Rest();
        var out, e := Read(Min(capacity - |b|, n));
        assert b + (out + Rest()) == (b + out) + Rest();
        b := b + out;
        n := n - |out|;
        if e.Some? {
          if e.value != EOF {
            err := e;
          }
          return;
        }
        if |b| == capacity {
          var more: nat :| more > 0;
          capacity := capacity + more;
        }
      }
    }
  }

  /** Reading `limit` bytes meets the error behind `bytes`. */
  predicate ErrorWithin(bytes: seq<bv8>, together: bool, limit: nat) {
    |bytes| < limit || (|bytes| == limit && together)
  }

  class Sniffer {
    const r: Media
    const detect: seq<bv8> -> string
    var start: seq<bv8>
    var err: Option<ReadError>
    var ctype: string
    var sniffed: bool

    ghost const Repr: set<object>

    ghost predicate Valid()
      reads this, Repr
      decreases Repr, 0
    {
      && this in Repr && r.Repr() <= Repr && this !in r.Repr() && r.Valid() && IsDetector(detect)
      && (!sniffed ==> start == [] && err.None? && ctype == "")
      && (sniffed ==> (err.None? <==> ctype != ""))
      && (err.Some? ==> err.value == r.Final() != EOF && r.Rest() == [])
    }

    ghost function Rest(): seq<bv8>
      requires Valid()
      reads this, Repr
      decreases Repr, 2
    {
      start + r.Rest()
    }

    ghost function Final(): ReadError
      requires Valid()
      reads this, Repr
      decreases Repr, 2
    {
      r.Final()
    }

    /** Bytes from the buffer come without the error. */
    ghost predicate Together()
      requires Valid()
      reads this, Repr
      decreases Repr, 2
    {
      (if sniffed then r.Rest() != [] else |r.Rest()| > SNIFF_BUFF_SIZE) && r.Together()
    }

    ghost function Unsniffed(): nat
      requires Valid()
      reads this, Repr
      decreases Repr, 2
    {
      (if sniffed then 0 else 1) + r.Unsniffed()
    }

    ghost function Idle(): nat
      requires Valid()
      reads this, Repr
      decreases Repr, 2
    {
      r.Idle()
    }

    constructor (r: Media, detect: seq<bv8> -> string)
      requires r.Valid() && IsDetector(detect)
      ensures Valid() && fresh(this) && Repr == {this} + r.Repr() && this.r == r && this.detect == detect
      ensures !sniffed && ctype == "" && Rest() == r.Rest() && Final() == r.Final()
    {
      this.r, this.detect := r, detect;
      start, err, ctype, sniffed := [], None, "", false;
      Repr := {this} + r.Repr();
    }

    /** Whatever was read or sniffed before, what comes from here on is what the wrapped reader would deliver. */
    method Read(size: nat) returns (out: seq<bv8>, e: Option<ReadError>)
      requires Valid()
      modifies Repr
      ensures Valid() && sniffed && Final() == old(Final())
      ensures |out| <= size && old(Rest()) == out + Rest()
      ensures e.Some? ==> Rest() == [] && e.value == Final()
      ensures out != [] ==> (e.Some? <==> old(Together()) && Rest() == [])
      ensures Rest() != [] ==> Together() == old(Together())
      ensures old(sniffed) ==> ctype == old(ctype) && err == old(err)
      ensures !old(sniffed) && ctype != "" ==> ctype == detect(Head(old(Rest())))
      ensures !old(sniffed) && Final() == EOF ==> ctype != ""
      ensures old(sniffed) && old(start != [] || err.Some?) ==> unchanged(r.Repr())
      ensures old(sniffed && start == [] && err.Some?) ==> out == [] && e == err
      ensures err.Some? ==> err.value == Final() && (e.Some? ==> start == [])
      ensures Unsniffed() <= old(Unsniffed())
      ensures size > 0 && e.None? && out == [] ==> Unsniffed() < old(Unsniffed()) || Idle() < old(Idle())
      decreases Repr, 0, 2
    {
      hide Media.Valid, Media.Rest, Media.Final, Media.Unsniffed, Media.Idle, Media.Together;
      var _, _ := ContentType();
      if |start| > 0 {
        var n := Min(size, |start|);
        out, e := start[..n], None;
        assert start + r.Rest() == out + (start[n..] + r.Rest());
        start := start[n..];
        return;
      }
      if err.Some? {
        return [], err;
      }
      out, e := r.Read(size);
    }

    /** The type is that of the first bytes, whatever their chunking, and a query changes nothing for a reader. */
    method ContentType() returns (t: string, ok: bool)
      requires Valid()
      modifies Repr
      ensures Valid() && sniffed && Rest() == old(Rest()) && Final() == old(Final())
      ensures t == ctype && (ok <==> err.None?) && (ok <==> t != "")
      ensures old(sniffed) ==> unchanged(Repr)
      ensures !old(sniffed) ==> start == Head(Rest())
      ensures !old(sniffed) && ok ==> t == detect(Head(Rest()))
      ensures !old(sniffed) ==> (!ok <==> Final() != EOF && ErrorWithin(Rest(), old(r.Together()), SNIFF_BUFF_SIZE))
      ensures Together() == old(Together())
      ensures !old(sniffed) ==> Unsniffed() < old(Unsniffed())
      decreases Repr, 0, 1
    {
      if sniffed {
        return ctype, ctype != "";
      }
      t, ok := FirstQuery();
    }

    /** The query that sniffs. */
    method FirstQuery() returns (t: string, ok: bool)
      requires Valid() && !sniffed
      modifies Repr
      ensures Valid() && sniffed && Rest() == old(Rest()) && Final() == old(Final())
      ensures t == ctype && (ok <==> err.None?)
      ensures start == Head(Rest())
      ensures ok ==> t == detect(Head(Rest())) && t != ""
      ensures !ok <==> Final() != EOF && ErrorWithin(Rest(), old(r.Together()), SNIFF_BUFF_SIZE)
      ensures Together() == old(Together())
      ensures Unsniffed() < old(Unsniffed())
      decreases Repr, 0, 0
    {
      hide Media.Valid, Media.Rest, Media.Final, Media.Unsniffed, Media.Idle, Media.Together, Head;
      ghost var all, together, unsniffed := r.Rest(), r.Together(), r.Unsniffed();
      assert Rest() == all;
      sniffed := true;
      start, err := r.ReadAllLimited(SNIFF_BUFF_SIZE);
      HeadIs(start, r.Rest());
      assert all == start + r.Rest() && r.Unsniffed() <= unsniffed;
      assert err.Some? <==> r.Final() != EOF && ErrorWithin(all, together, SNIFF_BUFF_SIZE);
      if err.Some? {
        return "", false;
      }
      ctype := detect(start);
      return ctype, true;
    }
  }

  /** The reader to go on with, and the content type; an empty one when sniffing met an error. */
  method DetermineContentType(media: Media, detect: seq<bv8> -> string) returns (m: Media, ctype: string)
    requires media.Valid() && IsDetector(detect)
    modifies media.Repr()
    ensures m.Valid() && m.Rest() == old(media.Rest()) && m.Final() == old(media.Final())
    ensures media.Typed? ==> m == media && ctype == media.ctype && unchanged(media.Repr())
    ensures !media.Typed? ==>
              && m.Sniffed? && m.sniffer.sniffed && m.sniffer.detect == detect && fresh(m.Repr() - media.Repr())
              && (ctype != "" ==> ctype == detect(Head(m.Rest())))
              && (ctype == "" <==> m.Final() != EOF && ErrorWithin(m.Rest(), old(media.Together()), SNIFF_BUFF_SIZE))
              && (m.Together() <==> |m.Rest()| > SNIFF_BUFF_SIZE && old(media.Together()))
  {
    if media.Typed? {
      return media, media.ctype;
    }
    var sniffer := new Sniffer(media, detect);
    var t, ok := sniffer.ContentType();
    if ok {
      return Sniffed(sniffer), t;
    }
    return Sniffed(sniffer), "";
  }

  /**
   Sniffing what has just been sniffed. The remaining stream and its final error are the same, and so is the content
   type, with one exception: exactly 512 bytes, with an error that is not `EOF` behind them and comes together with
   the last ones. The first sniffer meets that error; the second gets all it wants from the first one's buffer.
   */
  method DetermineTwice(media: Media, detect: seq<bv8> -> string)
    returns (m1: Media, t1: string, m2: Media, t2: string)
    requires media.Valid() && IsDetector(detect)
    modifies media.Repr()
    ensures m2.Valid() && m2.Rest() == old(media.Rest()) && m2.Final() == old(media.Final())
    ensures t1 == t2 <==>
            || media.Typed? || old(media.Final()) == EOF || |old(media.Rest())| != SNIFF_BUFF_SIZE
            || !old(media.Together())
    ensures media.Raw? ==>
              (t1 == t2 <==>
               !media.source.eager || media.source.final == EOF || |old(media.source.rest)| != SNIFF_BUFF_SIZE)
    ensures t1 != t2 ==> t1 == ""
  {
    m1, t1 := DetermineContentType(media, detect);
    m2, t2 := DetermineContentType(m1, detect);
  }

  /** The exception occurs. */
  method SecondSniffDiffers(bytes: seq<bv8>, detect: seq<bv8> -> string) returns (t1: string, t2: string)
    requires |bytes| == 512 && IsDetector(detect)
    ensures t1 == "" && t2 != ""
  {
    var source := new Source(bytes, Failure(1), true, 0);
    var _, t, _, u := DetermineTwice(Raw(source), detect);
    t1, t2 := t, u;
  }

  /** Two readers of the same bytes that end cleanly have the same type, however they cut the bytes. */
  method SameBytesSameType(a: Media, b: Media, detect: seq<bv8> -> string) returns (ta: string, tb: string)
    requires a.Valid() && b.Valid() && IsDetector(detect) && a.Repr() !! b.Repr()
    requires a.Rest() == b.Rest() && a.Final() == b.Final() == EOF && !a.Typed? && !b.Typed?
    modifies a.Repr(), b.Repr()
    ensures ta == tb != ""
  {
    var _, t := DetermineContentType(a, detect);
    var _, u := DetermineContentType(b, detect);
    ta, tb := t, u;
  }

  datatype Op = ReadOp(size: nat) | TypeOp

  datatype ReadResult = ReadResult(out: seq<bv8>, err: Option<ReadError>)

  /** All that a list of reads has delivered. */
  function Delivered(results: seq<ReadResult>): seq<bv8> {
    if results == [] then [] else Delivered(results[..|results| - 1]) + results[|results| - 1].out
  }

  lemma DeliveredPush(results: seq<ReadResult>, result: ReadResult)
    ensures Delivered(results + [result]) == Delivered(results) + result.out
  {
    assert (results + [result])[..|results|] == results;
  }

  /** A read returns an error only when all of `all` has been delivered, and then the final one. */
  predicate ErrorsComeLast(results: seq<ReadResult>, all: seq<bv8>, final: ReadError) {
    forall i :: 0 <= i < |results| && results[i].err.Some? ==>
      results[i].err.value == final && Delivered(results[..i + 1]) == all
  }

  /** After an error, every later read returns it again and nothing else. */
  predicate ErrorsStay(results: seq<ReadResult>) {
    forall i, j :: 0 <= i < j < |results| && results[i].err.Some? ==> results[j] == ReadResult([], results[i].err)
  }

  /**
   Any interleaving of reads of any sizes and type queries on a new sniffer: the bytes delivered are, in order, the
   next bytes of the wrapped reader, an error comes only after all of them, and every query gives the same answer.
   When the sniffing itself failed, that error comes on every read after the bytes.
   */
  method Interleave(media: Media, detect: seq<bv8> -> string, ops: seq<Op>)
    returns (results: seq<ReadResult>, types: seq<string>, s: Sniffer)
    requires media.Valid() && IsDetector(detect)
    modifies media.Repr()
    ensures s.Valid() && old(media.Rest()) == Delivered(results) + s.Rest() && s.Final() == old(media.Final())
    ensures ErrorsComeLast(results, old(media.Rest()), old(media.Final()))
    ensures s.err.Some? ==> ErrorsStay(results)
    ensures forall i :: 0 <= i < |types| ==> types[i] == s.ctype
    ensures forall i :: 0 <= i < |types| && types[i] != "" ==> types[i] == detect(Head(old(media.Rest())))
    ensures old(media.Final()) == EOF && types != [] ==> types[0] != ""
  {
    hide Sniffer.Valid, Sniffer.Rest, Sniffer.Final, Sniffer.Unsniffed, Sniffer.Idle, Sniffer.Together, IsDetector,
         Head, Account, ErrorsStay;
    s := new Sniffer(media, detect);
    results, types := [], [];
    ghost var all, final, failed := media.Rest(), media.Final(), false;
    NothingRead(all, final);
    for i := 0 to |ops|
      invariant s.Valid() && fresh(s.Repr - media.Repr()) && s.detect == detect
      invariant Account(results, all, final, s.Rest(), failed) && s.Final() == final
      invariant !s.sniffed ==> results == [] && types == [] && s.ctype == "" && s.Rest() == all
      invariant s.ctype != "" ==> s.ctype == detect(Head(all))
      invariant s.sniffed && final == EOF ==> s.ctype != ""
      invariant forall j :: 0 <= j < |types| ==> types[j] == s.ctype
      invariant failed ==> s.sniffed && (s.err.Some? ==> s.start == [] && s.err.value == final)
      invariant s.err.Some? ==> ErrorsStay(results)
    {
      match ops[i] {
        case ReadOp(size) =>
          ghost var rest := s.Rest();
          var out, e := s.Read(size);
          AccountPush(results, ReadResult(out, e), all, final, rest, s.Rest(), failed);
          if s.err.Some? {
            PushKeepsErrors(results, ReadResult(out, e), all, final, rest, failed);
          }
          results, failed := results + [ReadResult(out, e)], failed || e.Some?;
        case TypeOp =>
          var t, _ := s.ContentType();
          types := types + [t];
      }
    }
    AccountMeans(results, all, final, s.Rest(), failed);
  }

  /** The books of an interleaving: `rest` is what is left of `all`; no error has been returned unless `failed`. */
  predicate Account(results: seq<ReadResult>, all: seq<bv8>, final: ReadError, rest: seq<bv8>, failed: bool) {
    && all == Delivered(results) + rest
    && ErrorsComeLast(results, all, final)
    && (!failed ==> forall j :: 0 <= j < |results| ==> results[j].err.None?)
  }

  lemma AccountMeans(results: seq<ReadResult>, all: seq<bv8>, final: ReadError, rest: seq<bv8>, failed: bool)
    requires Account(results, all, final, rest, failed)
    ensures all == Delivered(results) + rest && ErrorsComeLast(results, all, final)
  {
  }

  lemma NothingRead(all: seq<bv8>, final: ReadError)
    ensures Account([], all, final, all, false) && ErrorsStay([])
  {
    assert Delivered([]) + all == all;
  }

  lemma AccountPush(
      results: seq<ReadResult>, result: ReadResult, all: seq<bv8>, final: ReadError,
      before: seq<bv8>, after: seq<bv8>, failed: bool)
    requires Account(results, all, final, before, failed)
    requires before == result.out + after
    requires result.err.Some? ==> result.err.value == final && after == []
    ensures Account(results + [result], all, final, after, failed || result.err.Some?)
  {
    DeliveredPush(results, result);
    hide Delivered;
    var more := results + [result];
    assert all == Delivered(more) + after;
    forall i | 0 <= i < |more| && more[i].err.Some?
      ensures more[i].err.value == final && Delivered(more[..i + 1]) == all
    {
      if i < |results| {
        assert more[..i + 1] == results[..i + 1];
      } else {
        assert more[..i + 1] == more;
      }
    }
  }

  lemma PushKeepsErrors(
      results: seq<ReadResult>, result: ReadResult, all: seq<bv8>, final: ReadError, rest: seq<bv8>, failed: bool)
    requires Account(results, all, final, rest, failed) && ErrorsStay(results)
    requires failed ==> result == ReadResult([], Some(final))
    ensures ErrorsStay(results + [result])
  {
    hide Delivered;
  }
}
