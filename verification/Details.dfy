/** The error details of an API error: `ErrDetails`, `parseDetails`, `parseHTTPDetails` and `ExtractProtoMessage`. */
module Details {
  import opened Prelude

  datatype MessageType =
    | ErrorInfoType
    | BadRequestType
    | PreconditionFailureType
    | QuotaFailureType
    | RetryInfoType
    | ResourceInfoType
    | RequestInfoType
    | DebugInfoType
    | HelpType
    | LocalizedMessageType
    | OtherType(name: string)

  /** A protobuf message; `line` is what `ErrDetails.String` prints for it. */
  datatype Message = Message(kind: MessageType, content: string, line: string)

  /** An `Any` value: it decodes to a message, or decoding fails with an error. */
  datatype Packed = Good(m: Message) | Malformed(text: string)

  /** An element of a details slice: a message, or a value that is no message at all. */
  datatype Item = Proto(m: Message) | NotProto(text: string)

  datatype ErrDetails = ErrDetails(
    errorInfo: Option<Message>,
    badRequest: Option<Message>,
    preconditionFailure: Option<Message>,
    quotaFailure: Option<Message>,
    retryInfo: Option<Message>,
    resourceInfo: Option<Message>,
    requestInfo: Option<Message>,
    debugInfo: Option<Message>,
    help: Option<Message>,
    localizedMessage: Option<Message>,
    unknown: seq<Item>)

  const NO_DETAILS := ErrDetails(None, None, None, None, None, None, None, None, None, None, [])

  // ---------------------------------------------------------------- decoding

  /** `Status.Details`: a value that does not decode is replaced by its error. */
  function Unpack(ps: seq<Packed>): seq<Item> {
    if ps == [] then []
    else [match ps[0] case Good(m) => Proto(m) case Malformed(t) => NotProto(t)] + Unpack(ps[1..])
  }

  /** The decoding of an HTTP body: a value that does not decode is skipped. */
  function UnpackWellFormed(ps: seq<Packed>): seq<Item> {
    if ps == [] then []
    else WellFormedItem(ps[0]) + UnpackWellFormed(ps[1..])
  }

  function WellFormedItem(p: Packed): seq<Item> {
    match p case Good(m) => [Proto(m)] case Malformed(_) => []
  }

  lemma {:induction false} UnpackWellFormedAppend(ps: seq<Packed>, p: Packed)
    ensures UnpackWellFormed(ps + [p]) == UnpackWellFormed(ps) + WellFormedItem(p)
  {
    hide WellFormedItem;
    if ps == [] {
      assert ps + [p] == [p] && [p][1..] == [];
    } else {
      assert (ps + [p])[1..] == ps[1..] + [p];
      UnpackWellFormedAppend(ps[1..], p);
    }
  }

  // ---------------------------------------------------------------- what a parsed list holds

  predicate Known(item: Item) {
    item.Proto? && !item.m.kind.OtherType?
  }

  predicate IsOfType(item: Item, t: MessageType) {
    item.Proto? && item.m.kind == t
  }

  /** The last message of type `t`. */
  function LastOf(items: seq<Item>, t: MessageType): Option<Message> {
    if items == [] then None
    else
      var last := items[|items| - 1];
      if IsOfType(last, t) then Some(last.m) else LastOf(items[..|items| - 1], t)
  }

  /** Everything that is not of one of the ten known types, in order. */
  function Unknowns(items: seq<Item>): seq<Item> {
    if items == [] then []
    else
      var last := items[|items| - 1];
      Unknowns(items[..|items| - 1]) + (if Known(last) then [] else [last])
  }

  function DetailsOf(items: seq<Item>): ErrDetails {
    ErrDetails(
      LastOf(items, ErrorInfoType),
      LastOf(items, BadRequestType),
      LastOf(items, PreconditionFailureType),
      LastOf(items, QuotaFailureType),
      LastOf(items, RetryInfoType),
      LastOf(items, ResourceInfoType),
      LastOf(items, RequestInfoType),
      LastOf(items, DebugInfoType),
      LastOf(items, HelpType),
      LastOf(items, LocalizedMessageType),
      Unknowns(items))
  }

  lemma DetailsOfOne(d: Item)
    ensures forall t :: LastOf([d], t) == if IsOfType(d, t) then Some(d.m) else None
    ensures Unknowns([d]) == if Known(d) then [] else [d]
  {
  }

  /** One round of the loop in `parseDetails`. */
  method AddDetail(ed: ErrDetails, d: Item) returns (r: ErrDetails)
    ensures r == Merge(ed, DetailsOf([d]))
  {
    DetailsOfOne(d);
    hide LastOf, Unknowns;
    if d.NotProto? {
      return ed.(unknown := ed.unknown + [d]);
    }
    match d.m.kind {
      case ErrorInfoType => r := ed.(errorInfo := Some(d.m));
      case BadRequestType => r := ed.(badRequest := Some(d.m));
      case PreconditionFailureType => r := ed.(preconditionFailure := Some(d.m));
      case QuotaFailureType => r := ed.(quotaFailure := Some(d.m));
      case RetryInfoType => r := ed.(retryInfo := Some(d.m));
      case ResourceInfoType => r := ed.(resourceInfo := Some(d.m));
      case RequestInfoType => r := ed.(requestInfo := Some(d.m));
      case DebugInfoType => r := ed.(debugInfo := Some(d.m));
      case HelpType => r := ed.(help := Some(d.m));
      case LocalizedMessageType => r := ed.(localizedMessage := Some(d.m));
      case OtherType(_) => r := ed.(unknown := ed.unknown + [d]);
    }
  }

  method ParseDetails(items: seq<Item>) returns (ed: ErrDetails)
    ensures ed == DetailsOf(items)
    ensures forall t: MessageType, m ::
              !t.OtherType? ==> (Field(ed, t) == Some(m) <==> exists i :: LastAt(items, i, t, m))
  {
    hide Field, LastAt;
    ed := NO_DETAILS;
    for i := 0 to |items|
      invariant ed == DetailsOf(items[..i])
    {
      assert items[..i + 1] == items[..i] + [items[i]];
      DetailsHomomorphism(items[..i], [items[i]]);
      ed := AddDetail(ed, items[i]);
    }
    assert items[..|items|] == items;
    forall t: MessageType, m | !t.OtherType? {
      DetailsField(items, t, m);
    }
  }

  method ParseHttpDetails(body: Option<seq<Packed>>) returns (ed: ErrDetails)
    ensures ed == if body.None? then NO_DETAILS else DetailsOf(UnpackWellFormed(body.value))
    ensures body.Some? ==>
              && (exists at :: KeptInOrder(body.value, GoodOther, at, ed.unknown))
              && forall t: MessageType, m ::
                   !t.OtherType? ==> (Field(ed, t) == Some(m) <==> exists i :: LastGood(body.value, i, t, m))
  {
    hide Field, LastGood, LastAt, DetailsOf, KeptInOrder;
    if body.None? {
      return NO_DETAILS;
    }
    var anys := body.value;
    var details: seq<Item> := [];
    for i := 0 to |anys|
      invariant details == UnpackWellFormed(anys[..i])
    {
      UnpackWellFormedAppend(anys[..i], anys[i]);
      assert anys[..i + 1] == anys[..i] + [anys[i]];
      if anys[i].Malformed? {
        continue;
      }
      details := details + [Proto(anys[i].m)];
    }
    assert anys[..|anys|] == anys;
    ed := ParseDetails(details);
    forall t: MessageType, m | !t.OtherType? {
      HttpDetailsField(anys, t, m);
    }
    ghost var at := HttpUnknown(anys);
  }

  // ---------------------------------------------------------------- the homomorphism

  function Or(later: Option<Message>, earlier: Option<Message>): Option<Message> {
    if later.Some? then later else earlier
  }

  function Merge(a: ErrDetails, b: ErrDetails): ErrDetails {
    ErrDetails(
      Or(b.errorInfo, a.errorInfo),
      Or(b.badRequest, a.badRequest),
      Or(b.preconditionFailure, a.preconditionFailure),
      Or(b.quotaFailure, a.quotaFailure),
      Or(b.retryInfo, a.retryInfo),
      Or(b.resourceInfo, a.resourceInfo),
      Or(b.requestInfo, a.requestInfo),
      Or(b.debugInfo, a.debugInfo),
      Or(b.help, a.help),
      Or(b.localizedMessage, a.localizedMessage),
      a.unknown + b.unknown)
  }

  lemma {:induction false} LastOfAppend(a: seq<Item>, b: seq<Item>, t: MessageType)
    ensures LastOf(a + b, t) == Or(LastOf(b, t), LastOf(a, t))
  {
    if b == [] {
      assert a + b == a;
    } else {
      assert (a + b)[..|a + b| - 1] == a + b[..|b| - 1];
      LastOfAppend(a, b[..|b| - 1], t);
    }
  }

  lemma {:induction false} UnknownsAppend(a: seq<Item>, b: seq<Item>)
    ensures Unknowns(a + b) == Unknowns(a) + Unknowns(b)
  {
    if b == [] {
      assert a + b == a;
    } else {
      assert (a + b)[..|a + b| - 1] == a + b[..|b| - 1];
      UnknownsAppend(a, b[..|b| - 1]);
    }
  }

  /** Parsing a concatenation is merging the parses. */
  lemma DetailsHomomorphism(a: seq<Item>, b: seq<Item>)
    ensures DetailsOf(a + b) == Merge(DetailsOf(a), DetailsOf(b))
  {
    forall t {
      LastOfAppend(a, b, t);
    }
    UnknownsAppend(a, b);
  }

  /** Position `i` holds `m`, and the type of `m` is `t` and does not occur after `i`. */
  predicate LastAt(items: seq<Item>, i: nat, t: MessageType, m: Message) {
    && i < |items| && items[i] == Proto(m) && m.kind == t
    && forall j :: i < j < |items| ==> !IsOfType(items[j], t)
  }

  /** A known field is set exactly to an occurrence after which its type does not occur again. */
  lemma {:induction false} LastOfIsLast(items: seq<Item>, t: MessageType, m: Message)
    ensures LastOf(items, t) == Some(m) <==> exists i :: LastAt(items, i, t, m)
  {
    if items != [] {
      var n := |items| - 1;
      if IsOfType(items[n], t) {
        assert LastAt(items, n, t, items[n].m);
      } else {
        LastOfIsLast(items[..n], t, m);
        forall i: nat
          ensures LastAt(items[..n], i, t, m) <==> LastAt(items, i, t, m)
        {
          assert forall j :: i < j < n ==> items[..n][j] == items[j];
        }
      }
    }
  }

  /** `Unknown` holds exactly the items that are of no known type. */
  lemma {:induction false} UnknownHoldsExactlyOtherTypes(items: seq<Item>, item: Item)
    ensures item in Unknowns(items) <==> item in items && !Known(item)
  {
    if items != [] {
      var n := |items| - 1;
      UnknownHoldsExactlyOtherTypes(items[..n], item);
      assert items == items[..n] + [items[n]];
    }
  }

  // ---------------------------------------------------------------- what a packed list turns into

  /** The field that is meant for messages of type `t`. */
  function Field(d: ErrDetails, t: MessageType): Option<Message> {
    match t
    case ErrorInfoType => d.errorInfo
    case BadRequestType => d.badRequest
    case PreconditionFailureType => d.preconditionFailure
    case QuotaFailureType => d.quotaFailure
    case RetryInfoType => d.retryInfo
    case ResourceInfoType => d.resourceInfo
    case RequestInfoType => d.requestInfo
    case DebugInfoType => d.debugInfo
    case HelpType => d.help
    case LocalizedMessageType => d.localizedMessage
    case OtherType(_) => None
  }

  predicate DecodesTo(p: Packed, t: MessageType) {
    p.Good? && p.m.kind == t
  }

  /** Position `i` decodes to `m`, of type `t`, and no later one decodes to that type. */
  predicate LastGood(ps: seq<Packed>, i: nat, t: MessageType, m: Message) {
    && i < |ps| && ps[i] == Good(m) && m.kind == t
    && forall j :: i < j < |ps| ==> !DecodesTo(ps[j], t)
  }

  /** Well-formed values of an HTTP body that are of no known type. */
  predicate GoodOther(p: Packed) {
    p.Good? && p.m.kind.OtherType?
  }

  /** Values of a gRPC status that are of no known type; those that do not decode are among them. */
  predicate NotKnown(p: Packed) {
    p.Malformed? || p.m.kind.OtherType?
  }

  predicate Shows(p: Packed, item: Item) {
    match p case Good(m) => item == Proto(m) case Malformed(t) => item == NotProto(t)
  }

  /** `items` shows, in order, exactly the values of `ps` that are `kept`: those at the positions `at`. */
  ghost predicate KeptInOrder(ps: seq<Packed>, kept: Packed -> bool, at: seq<nat>, items: seq<Item>) {
    && |at| == |items|
    && (forall i :: 0 <= i < |at| ==> at[i] < |ps| && Shows(ps[at[i]], items[i]))
    && (forall i, j :: 0 <= i < j < |at| ==> at[i] < at[j])
    && (forall k: nat :: k in at <==> k < |ps| && kept(ps[k]))
  }

  lemma KeptStep(ps: seq<Packed>, p: Packed, kept: Packed -> bool, at: seq<nat>, items: seq<Item>, item: Item)
    requires KeptInOrder(ps, kept, at, items) && Shows(p, item)
    ensures kept(p) ==> KeptInOrder(ps + [p], kept, at + [|ps|], items + [item])
    ensures !kept(p) ==> KeptInOrder(ps + [p], kept, at, items)
  {
    var more := ps + [p];
    assert forall i :: 0 <= i < |at| ==> more[at[i]] == ps[at[i]];
    assert forall i :: 0 <= i < |at| ==> at[i] in at;
    assert forall k: nat :: k < |ps| ==> more[k] == ps[k];
  }

  /** The decoded body: exactly the messages that decode. */
  lemma {:induction false} UnpackKeepsTheGood(ps: seq<Packed>, item: Item)
    ensures item in UnpackWellFormed(ps) <==> item.Proto? && Good(item.m) in ps
  {
    if ps != [] {
      UnpackKeepsTheGood(ps[1..], item);
      assert ps == [ps[0]] + ps[1..];
    }
  }

  lemma FieldIsLast(items: seq<Item>, t: MessageType)
    requires !t.OtherType?
    ensures Field(DetailsOf(items), t) == LastOf(items, t)
  {
    hide LastOf, Unknowns;
  }

  /** A field of a known type holds exactly a message at a last occurrence of that type. */
  lemma DetailsField(items: seq<Item>, t: MessageType, m: Message)
    requires !t.OtherType?
    ensures Field(DetailsOf(items), t) == Some(m) <==> exists i :: LastAt(items, i, t, m)
  {
    hide Field, DetailsOf, LastAt;
    FieldIsLast(items, t);
    LastOfIsLast(items, t, m);
  }

  /** What one more value of the body changes. */
  lemma UnpackStep(front: seq<Packed>, p: Packed, t: MessageType)
    ensures var items, more := UnpackWellFormed(front), UnpackWellFormed(front + [p]);
            && LastOf(more, t) == (if DecodesTo(p, t) then Some(p.m) else LastOf(items, t))
            && Unknowns(more) == Unknowns(items) + (if GoodOther(p) then [Proto(p.m)] else [])
  {
    hide UnpackWellFormed, LastOf, Unknowns;
    var items := UnpackWellFormed(front);
    UnpackWellFormedAppend(front, p);
    if p.Good? {
      LastOfAppend(items, [Proto(p.m)], t);
      UnknownsAppend(items, [Proto(p.m)]);
      DetailsOfOne(Proto(p.m));
    } else {
      assert items + [] == items;
    }
  }

  lemma LastGoodStep(front: seq<Packed>, p: Packed, t: MessageType, m: Message)
    ensures !DecodesTo(p, t) ==> forall i: nat :: LastGood(front + [p], i, t, m) <==> LastGood(front, i, t, m)
    ensures DecodesTo(p, t) && m == p.m ==> LastGood(front + [p], |front|, t, m)
    ensures DecodesTo(p, t) && m != p.m ==> forall i: nat :: !LastGood(front + [p], i, t, m)
  {
    var more := front + [p];
    assert forall j :: 0 <= j < |front| ==> more[j] == front[j];
    assert more[|front|] == p;
  }

  lemma {:induction false} HttpLast(ps: seq<Packed>, t: MessageType, m: Message)
    ensures LastOf(UnpackWellFormed(ps), t) == Some(m) <==> exists i :: LastGood(ps, i, t, m)
  {
    if ps != [] {
      hide UnpackWellFormed, LastOf, Unknowns, LastGood, DecodesTo, GoodOther;
      var front, p := ps[..|ps| - 1], ps[|ps| - 1];
      assert ps == front + [p];
      UnpackStep(front, p, t);
      LastGoodStep(front, p, t, m);
      HttpLast(front, t, m);
    }
  }

  /**
   The details of an HTTP error, in terms of its body: the field of a known type holds a message exactly when some
   position decodes to it and no later one decodes to its type. Values that do not decode leave no trace.
   */
  lemma HttpDetailsField(ps: seq<Packed>, t: MessageType, m: Message)
    requires !t.OtherType?
    ensures Field(DetailsOf(UnpackWellFormed(ps)), t) == Some(m) <==> exists i :: LastGood(ps, i, t, m)
  {
    hide Field, DetailsOf, UnpackWellFormed, LastGood;
    FieldIsLast(UnpackWellFormed(ps), t);
    HttpLast(ps, t, m);
  }

  lemma {:induction false} UnpackAt(ps: seq<Packed>)
    ensures |Unpack(ps)| == |ps|
    ensures forall i :: 0 <= i < |ps| ==> Shows(ps[i], Unpack(ps)[i])
  {
    if ps != [] {
      UnpackAt(ps[1..]);
      assert forall i :: 0 < i < |ps| ==> ps[i] == ps[1..][i - 1];
    }
  }

  /** The same for the details of a gRPC status. */
  lemma StatusDetailsField(ps: seq<Packed>, t: MessageType, m: Message)
    requires !t.OtherType?
    ensures Field(DetailsOf(Unpack(ps)), t) == Some(m) <==> exists i :: LastGood(ps, i, t, m)
  {
    hide Field, DetailsOf, Unpack;
    DetailsField(Unpack(ps), t, m);
    UnpackAt(ps);
    forall i: nat
      ensures LastAt(Unpack(ps), i, t, m) <==> LastGood(ps, i, t, m)
    {
      assert forall j :: i < j < |ps| ==> (IsOfType(Unpack(ps)[j], t) <==> DecodesTo(ps[j], t));
    }
  }

  lemma NoneKept(kept: Packed -> bool)
    ensures KeptInOrder([], kept, [], [])
  {
  }

  /** What an HTTP body leaves in `Unknown`: its well-formed values of other types, in order. */
  lemma {:induction false} HttpUnknown(ps: seq<Packed>) returns (at: seq<nat>)
    ensures KeptInOrder(ps, GoodOther, at, DetailsOf(UnpackWellFormed(ps)).unknown)
  {
    if ps == [] {
      NoneKept(GoodOther);
      return [];
    }
    hide KeptInOrder, UnpackWellFormed, Unknowns, LastOf;
    var front, p := ps[..|ps| - 1], ps[|ps| - 1];
    assert ps == front + [p];
    at := HttpUnknown(front);
    UnpackStep(front, p, ErrorInfoType);
    var item := match p case Good(m) => Proto(m) case Malformed(t) => NotProto(t);
    KeptStep(front, p, GoodOther, at, Unknowns(UnpackWellFormed(front)), item);
    if GoodOther(p) {
      at := at + [|front|];
    }
  }

  /** What a gRPC status leaves there: its values of other types and those that do not decode, in order. */
  lemma {:induction false} StatusUnknown(ps: seq<Packed>) returns (at: seq<nat>)
    ensures KeptInOrder(ps, NotKnown, at, DetailsOf(Unpack(ps)).unknown)
  {
    if ps == [] {
      NoneKept(NotKnown);
      return [];
    }
    hide KeptInOrder, Unpack, Unknowns, LastOf;
    var front, p := ps[..|ps| - 1], ps[|ps| - 1];
    assert ps == front + [p];
    at := StatusUnknown(front);
    var item := UnpackLast(front, p);
    KeptStep(front, p, NotKnown, at, Unknowns(Unpack(front)), item);
    if NotKnown(p) {
      at := at + [|front|];
    }
  }

  lemma UnpackLast(front: seq<Packed>, p: Packed) returns (item: Item)
    ensures Shows(p, item)
    ensures Unknowns(Unpack(front + [p])) == Unknowns(Unpack(front)) + (if NotKnown(p) then [item] else [])
  {
    hide Unpack, Unknowns;
    var more := front + [p];
    UnpackAt(front);
    UnpackAt(more);
    item := Unpack(more)[|front|];
    assert more[|front|] == p;
    assert forall i :: 0 <= i < |front| ==> more[i] == front[i];
    assert Unpack(more) == Unpack(front) + [item];
    UnknownsAppend(Unpack(front), [item]);
    DetailsOfOne(item);
  }

  // ---------------------------------------------------------------- ExtractProtoMessage

  function FirstOf(items: seq<Item>, t: MessageType): Option<Message> {
    if items == [] then None
    else if IsOfType(items[0], t) then Some(items[0].m)
    else FirstOf(items[1..], t)
  }

  /**
   The message that is merged into the argument, `None` for `ErrMessageNotFound`; `t` is the argument's type,
   `None` for a nil argument.
   */
  method ExtractProtoMessage(e: ErrDetails, t: Option<MessageType>) returns (r: Option<Message>)
    ensures r == if t.None? then None else FirstOf(e.unknown, t.value)
  {
    if t.None? {
      return None;
    }
    for i := 0 to |e.unknown|
      invariant FirstOf(e.unknown, t.value) == FirstOf(e.unknown[i..], t.value)
    {
      var elem := e.unknown[i];
      if elem.Proto? {
        if t.value == elem.m.kind {
          return Some(elem.m);
        }
      }
    }
    r := None;
  }

  lemma {:induction false} FirstOfAppend(a: seq<Item>, b: seq<Item>, t: MessageType)
    ensures FirstOf(a + b, t) == if FirstOf(a, t).Some? then FirstOf(a, t) else FirstOf(b, t)
  {
    if a == [] {
      assert a + b == b;
    } else {
      assert (a + b)[1..] == a[1..] + b;
      FirstOfAppend(a[1..], b, t);
    }
  }

  /** Position `i` holds `m`, and the type of `m` is `t` and does not occur before `i`. */
  predicate FirstAt(items: seq<Item>, i: nat, t: MessageType, m: Message) {
    && i < |items| && items[i] == Proto(m) && m.kind == t
    && forall j :: 0 <= j < i ==> !IsOfType(items[j], t)
  }

  /** The search finds exactly an occurrence before which the type does not occur. */
  lemma {:induction false} FirstOfIsFirst(items: seq<Item>, t: MessageType, m: Message)
    ensures FirstOf(items, t) == Some(m) <==> exists i :: FirstAt(items, i, t, m)
  {
    if items != [] {
      if IsOfType(items[0], t) {
        assert FirstAt(items, 0, t, items[0].m);
      } else {
        FirstOfIsFirst(items[1..], t, m);
        forall i: nat
          ensures FirstAt(items[1..], i, t, m) <==> FirstAt(items, i + 1, t, m)
        {
          assert forall j :: 0 <= j < i && j + 1 < |items| ==> items[1..][j] == items[j + 1];
        }
        if FirstOf(items, t) == Some(m) {
          var i: nat :| FirstAt(items[1..], i, t, m);
          assert FirstAt(items, i + 1, t, m);
        } else {
          forall i: nat
            ensures !FirstAt(items, i, t, m)
          {
            if i > 0 {
              assert !FirstAt(items[1..], i - 1, t, m);
            }
          }
        }
      }
    }
  }

  /** `ExtractProtoMessage` after parsing finds the first message of a type that is not known, and never a known one. */
  lemma {:induction false} ExtractFindsFirstOfOtherType(items: seq<Item>, t: MessageType)
    ensures FirstOf(Unknowns(items), t) == if t.OtherType? then FirstOf(items, t) else None
  {
    if items != [] {
      var n := |items| - 1;
      ExtractFindsFirstOfOtherType(items[..n], t);
      assert items == items[..n] + [items[n]];
      FirstOfAppend(items[..n], [items[n]], t);
      FirstOfAppend(Unknowns(items[..n]), if Known(items[n]) then [] else [items[n]], t);
    }
  }

  // ---------------------------------------------------------------- ErrDetails.String

  /** What is printed for a `DebugInfo` message. */
  function DebugInfoLine(detail: string, stackEntries: seq<string>): string {
    "error details: name = DebugInfo detail = " + detail + " stack = " + Join(stackEntries, " ") + "\n"
  }

  function LineOf(m: Option<Message>): string {
    if m.Some? then m.value.line else ""
  }

  function ItemTexts(items: seq<Item>): seq<string> {
    seq(|items|, i requires 0 <= i < |items| => ItemText(items[i]))
  }

  function ItemText(item: Item): string {
    match item case Proto(m) => m.line case NotProto(text) => text
  }

  function DetailsText(e: ErrDetails): string {
    Concat(Lines(e))
  }

  /** What is written to the builder, in order. */
  function Lines(e: ErrDetails): seq<string> {
    [ LineOf(e.errorInfo), LineOf(e.badRequest), LineOf(e.preconditionFailure), LineOf(e.quotaFailure),
      LineOf(e.requestInfo), LineOf(e.resourceInfo), LineOf(e.retryInfo), UnknownLine(e.unknown),
      LineOf(e.debugInfo), LineOf(e.help), LineOf(e.localizedMessage)]
  }

  function UnknownLine(items: seq<Item>): string {
    if items == [] then ""
    else "error details: name = Unknown  desc = " + (Join(ItemTexts(items), " ") + "\n")
  }

  /** The line of every known message that is there, and the text of every other value, is printed. */
  lemma DetailsArePrinted(e: ErrDetails)
    ensures forall t :: Field(e, t).Some? ==> Contains(DetailsText(e), Field(e, t).value.line)
    ensures forall i :: 0 <= i < |e.unknown| ==> Contains(DetailsText(e), ItemText(e.unknown[i]))
  {
    hide Contains, Concat, UnknownLine;
    forall i: nat | i < |Lines(e)|
      ensures Contains(DetailsText(e), Lines(e)[i])
    {
      ConcatContains(Lines(e), i);
    }
    forall t | Field(e, t).Some?
      ensures Contains(DetailsText(e), Field(e, t).value.line)
    {
      assert Field(e, t).value.line in Lines(e);
    }
    forall i | 0 <= i < |e.unknown|
      ensures Contains(DetailsText(e), ItemText(e.unknown[i]))
    {
      UnknownIsPrinted(e.unknown, i);
      assert Contains(DetailsText(e), Lines(e)[7]);
      ContainsTrans(DetailsText(e), UnknownLine(e.unknown), ItemTexts(e.unknown)[i]);
    }
  }

  lemma UnknownIsPrinted(items: seq<Item>, i: nat)
    requires i < |items|
    ensures Contains(UnknownLine(items), ItemTexts(items)[i])
  {
    hide Contains;
    var texts := ItemTexts(items);
    JoinContains(texts, " ", i);
    var front := "error details: name = Unknown  desc = ";
    ContainsIntro(UnknownLine(items), Join(texts, " "), front, "\n");
    ContainsTrans(UnknownLine(items), Join(texts, " "), texts[i]);
  }
}
