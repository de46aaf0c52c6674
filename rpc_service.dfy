/**
 * The chain-facing half of the deal observer: the actor-event filter sent to
 * the node, the fetch that turns the node's raw events into claim block
 * events, and the miner-info lookup that yields a miner's peer id.
 *
 * The node's JSON-RPC endpoint, the typebox schemas, the entry decoder and
 * the CBOR / base64pad encoders are outside code; they enter as function
 * values, so every property below holds whatever they compute.
 */
module RpcService {
  import opened Wrappers

  type byte = b: int | 0 <= b < 256

  // ---------------------------------------------------------------------
  // Actor-event filter
  // ---------------------------------------------------------------------

  /** Codec 81: CBOR. Matching on it selects built-in actor events only. */
  const CborCodec: int := 81

  /** Name of the filter field that carries the event-type discriminator. */
  const TypeField: string := "$type"

  /** One accepted value of a filter field: a codec tag and the encoded value. */
  datatype FieldMatch = FieldMatch(codec: int, value: string)

  /** The argument of `Filecoin.GetActorEventsRaw`. */
  datatype ActorEventFilter = ActorEventFilter(
    fromHeight: int,
    toHeight: int,
    fields: map<string, seq<FieldMatch>>)

  /** The events of height `h` are within the filter's (inclusive) height range. */
  predicate CoversHeight(filter: ActorEventFilter, h: int) {
    filter.fromHeight <= h <= filter.toHeight
  }

  ghost predicate Injective<A(!new), B>(f: A -> B) {
    forall x, y :: f(x) == f(y) ==> x == y
  }

  /**
   * The filter for one block height and one event type. The type name is
   * CBOR-encoded and then written as padded base64; `cborEncode` and
   * `base64pad` stand for the two library encoders.
   */
  function ActorEventsFilter(blockHeight: int, eventType: string,
                             cborEncode: string -> seq<byte>,
                             base64pad: seq<byte> -> string): (filter: ActorEventFilter)
    ensures forall h :: CoversHeight(filter, h) <==> h == blockHeight
    ensures filter.fields.Keys == {TypeField}
    ensures |filter.fields[TypeField]| == 1
    ensures filter.fields[TypeField][0].codec == CborCodec
    ensures filter.fields[TypeField][0].value == base64pad(cborEncode(eventType))
  {
    ActorEventFilter(
      blockHeight,
      blockHeight,
      map[TypeField := [FieldMatch(CborCodec, base64pad(cborEncode(eventType)))]])
  }

  /**
   * With injective encoders, a filter determines its height and its event
   * type, and depends on nothing else: two filters are equal exactly when
   * they were built from the same height and the same type name.
   */
  lemma FilterIdentifiesHeightAndType(h1: int, t1: string, h2: int, t2: string,
                                      cborEncode: string -> seq<byte>,
                                      base64pad: seq<byte> -> string)
    requires Injective(cborEncode) && Injective(base64pad)
    ensures ActorEventsFilter(h1, t1, cborEncode, base64pad) == ActorEventsFilter(h2, t2, cborEncode, base64pad)
            <==> h1 == h2 && t1 == t2
  {
    var f1 := ActorEventsFilter(h1, t1, cborEncode, base64pad);
    var f2 := ActorEventsFilter(h2, t2, cborEncode, base64pad);
    if f1 == f2 {
      assert f1.fields[TypeField][0].value == f2.fields[TypeField][0].value;
      assert cborEncode(t1) == cborEncode(t2);
    }
  }

  // ---------------------------------------------------------------------
  // Raw events and their decoding
  // ---------------------------------------------------------------------

  /** One key/value entry of a raw actor event. */
  datatype RawEntry = RawEntry(flags: int, key: string, codec: int, value: seq<byte>)

  /** A raw actor event as validated against the raw-event schema. */
  datatype RawActorEvent = RawActorEvent(
    emitter: string,
    entries: seq<RawEntry>,
    height: int,
    reverted: bool)

  /** What the entry decoder yields: the accumulated fields and the event kind. */
  datatype DecodedEvent<F> = DecodedEvent(event: F, eventType: string)

  /** The typed payload of a `claim` event (a deal activation). */
  datatype ClaimEvent = ClaimEvent(
    id: int,
    client: int,
    provider: int,
    pieceCid: string,
    pieceSize: int,
    termMin: int,
    termMax: int,
    termStart: int,
    sector: int)

  /** A claim event with the height and emitter of its raw event. */
  datatype BlockEvent = BlockEvent(height: int, emitter: string, event: ClaimEvent)

  datatype FetchError =
    | RpcFailed(message: string)
    | InvalidRawEvent(index: nat)
    | InvalidClaimEvent(index: nat)
    | InvalidBlockEvent(index: nat)

  /**
   * The outside code the fetch relies on: the three schema parsers and the
   * entry decoder. `J` is an untyped element of the node's reply and `F` the
   * untyped object the decoder accumulates.
   */
  datatype EventCodec<-J, !F> = EventCodec(
    parseRaw: J -> Option<RawActorEvent>,
    decodeEntries: seq<RawEntry> -> DecodedEvent<F>,
    parseClaim: F -> Option<ClaimEvent>,
    acceptsBlockEvent: BlockEvent -> bool)

  const ClaimKind: string := "claim"

  function Decoded<J, F>(ev: RawActorEvent, codec: EventCodec<J, F>): DecodedEvent<F> {
    codec.decodeEntries(ev.entries)
  }

  predicate IsClaim<J, F>(ev: RawActorEvent, codec: EventCodec<J, F>) {
    Decoded(ev, codec).eventType == ClaimKind
  }

  /** A claim event whose payload and whose assembled block event pass their schemas. */
  predicate ClaimAccepted<J, F>(ev: RawActorEvent, codec: EventCodec<J, F>) {
    match codec.parseClaim(Decoded(ev, codec).event)
    case None => false
    case Some(claim) => codec.acceptsBlockEvent(BlockEvent(ev.height, ev.emitter, claim))
  }

  /** The block event a claim event contributes. */
  function BlockEventOf<J, F>(ev: RawActorEvent, codec: EventCodec<J, F>): BlockEvent
    requires codec.parseClaim(Decoded(ev, codec).event).Some?
  {
    BlockEvent(ev.height, ev.emitter, codec.parseClaim(Decoded(ev, codec).event).value)
  }

  // ---------------------------------------------------------------------
  // Fetching actor events: the specification
  // ---------------------------------------------------------------------

  /**
   * Schema validation of every raw event, done before any is dispatched.
   * It fails at the first element that does not parse.
   */
  function ParseRawEvents<J>(raws: seq<J>, parseRaw: J -> Option<RawActorEvent>): (r: Result<seq<RawActorEvent>, FetchError>)
    ensures r.Success? <==> forall i :: 0 <= i < |raws| ==> parseRaw(raws[i]).Some?
    ensures r.Success? ==> |r.value| == |raws| && forall i :: 0 <= i < |raws| ==> parseRaw(raws[i]) == Some(r.value[i])
    ensures r.Failure? ==> r.error.InvalidRawEvent? && r.error.index < |raws|
                           && parseRaw(raws[r.error.index]).None?
                           && forall j :: 0 <= j < r.error.index ==> parseRaw(raws[j]).Some?
    decreases |raws|
  {
    if raws == [] then Success([])
    else
      var init := raws[..|raws| - 1];
      assert forall i :: 0 <= i < |init| ==> init[i] == raws[i];
      match ParseRawEvents(init, parseRaw)
      case Failure(e) => Failure(e)
      case Success(typed) =>
        match parseRaw(raws[|raws| - 1])
        case None => Failure(InvalidRawEvent(|raws| - 1))
        case Some(ev) => Success(typed + [ev])
  }

  /** One turn of the dispatch loop: what the event at `index` adds to the output. */
  function DispatchEvent<J, F>(ev: RawActorEvent, index: nat, codec: EventCodec<J, F>): (r: Result<seq<BlockEvent>, FetchError>)
    ensures !IsClaim(ev, codec) ==> r == Success([])
    ensures IsClaim(ev, codec) && ClaimAccepted(ev, codec) ==> r == Success([BlockEventOf(ev, codec)])
    ensures IsClaim(ev, codec) && !ClaimAccepted(ev, codec) ==>
              r == Failure(InvalidClaimEvent(index)) || r == Failure(InvalidBlockEvent(index))
  {
    var decoded := Decoded(ev, codec);
    if decoded.eventType == ClaimKind then
      match codec.parseClaim(decoded.event)
      case None => Failure(InvalidClaimEvent(index))
      case Some(claim) =>
        var blockEvent := BlockEvent(ev.height, ev.emitter, claim);
        if codec.acceptsBlockEvent(blockEvent) then Success([blockEvent])
        else Failure(InvalidBlockEvent(index))
    else
      Success([])
  }

  /**
   * The dispatch loop over the validated events, in the node's order. It
   * emits at most one block event per event and can only fail on a claim
   * event, naming its position.
   */
  function EmitClaims<J, F>(typed: seq<RawActorEvent>, codec: EventCodec<J, F>): (r: Result<seq<BlockEvent>, FetchError>)
    ensures r.Success? ==> |r.value| <= |typed|
    ensures r.Failure? ==> (r.error.InvalidClaimEvent? || r.error.InvalidBlockEvent?) && r.error.index < |typed|
    ensures r.Failure? ==> IsClaim(typed[r.error.index], codec)
    decreases |typed|
  {
    if typed == [] then Success([])
    else
      match EmitClaims(typed[..|typed| - 1], codec)
      case Failure(e) => Failure(e)
      case Success(out) =>
        match DispatchEvent(typed[|typed| - 1], |typed| - 1, codec)
        case Failure(e) => Failure(e)
        case Success(more) => Success(out + more)
  }

  /** Independent description of the output: the positions of the claim events, ascending. */
  function ClaimIndices<J, F>(typed: seq<RawActorEvent>, codec: EventCodec<J, F>): (idx: seq<nat>)
    ensures |idx| <= |typed|
    ensures forall k :: 0 <= k < |idx| ==> idx[k] < |typed| && IsClaim(typed[idx[k]], codec)
    ensures forall k, l :: 0 <= k < l < |idx| ==> idx[k] < idx[l]
    ensures forall i :: 0 <= i < |typed| && IsClaim(typed[i], codec) ==> i in idx
    decreases |typed|
  {
    if typed == [] then []
    else
      var init := typed[..|typed| - 1];
      assert forall i :: 0 <= i < |init| ==> init[i] == typed[i];
      ClaimIndices(init, codec) + if IsClaim(typed[|typed| - 1], codec) then [|typed| - 1] else []
  }

  /** The whole call, given the node's reply to `Filecoin.GetActorEventsRaw`. */
  function ActorEvents<J, F>(reply: Result<Option<seq<J>>, string>, codec: EventCodec<J, F>): (r: Result<seq<BlockEvent>, FetchError>)
    ensures reply.Failure? ==> r == Failure(RpcFailed(reply.error))
    ensures reply == Success(None) || reply == Success(Some([])) ==> r == Success([])
    ensures reply.Success? && reply.value.Some? &&
            (exists i :: 0 <= i < |reply.value.value| && codec.parseRaw(reply.value.value[i]).None?)
            ==> r.Failure? && r.error.InvalidRawEvent?
  {
    match reply
    case Failure(message) => Failure(RpcFailed(message))
    case Success(None) => Success([])
    case Success(Some(raws)) =>
      if |raws| == 0 then Success([])
      else
        match ParseRawEvents(raws, codec.parseRaw)
        case Failure(e) => Failure(e)
        case Success(typed) => EmitClaims(typed, codec)
  }

  // ---------------------------------------------------------------------
  // Fetching actor events: properties
  // ---------------------------------------------------------------------

  /** Once the dispatch of some prefix has failed, the whole dispatch fails the same way. */
  lemma {:induction false} EmitClaimsFailurePersists<J, F>(typed: seq<RawActorEvent>, n: nat, codec: EventCodec<J, F>)
    requires n <= |typed|
    requires EmitClaims(typed[..n], codec).Failure?
    ensures EmitClaims(typed, codec) == EmitClaims(typed[..n], codec)
    decreases |typed| - n
  {
    if n < |typed| {
      var longer := typed[..n + 1];
      assert longer[..n] == typed[..n];
      assert EmitClaims(longer, codec) == EmitClaims(typed[..n], codec);
      assert typed[..n + 1][..n + 1] == typed[..n + 1];
      EmitClaimsFailurePersists(typed, n + 1, codec);
    } else {
      assert typed[..n] == typed;
    }
  }

  /**
   * The dispatch succeeds exactly when every claim event passes its schemas;
   * then its output is the claim events, in the node's order, each carrying
   * its own raw event's height and emitter; otherwise the error names the
   * first claim event that did not pass.
   */
  lemma {:induction false} EmitClaimsCharacterization<J, F>(typed: seq<RawActorEvent>, codec: EventCodec<J, F>)
    ensures EmitClaims(typed, codec).Success? <==>
              forall i :: 0 <= i < |typed| && IsClaim(typed[i], codec) ==> ClaimAccepted(typed[i], codec)
    ensures EmitClaims(typed, codec).Success? ==>
              var out := EmitClaims(typed, codec).value;
              var idx := ClaimIndices(typed, codec);
              |out| == |idx| &&
              forall k :: 0 <= k < |out| ==>
                codec.parseClaim(Decoded(typed[idx[k]], codec).event).Some? &&
                out[k] == BlockEventOf(typed[idx[k]], codec)
    ensures EmitClaims(typed, codec).Failure? ==>
              var e := EmitClaims(typed, codec).error;
              (e.InvalidClaimEvent? || e.InvalidBlockEvent?) &&
              e.index < |typed| && IsClaim(typed[e.index], codec) && !ClaimAccepted(typed[e.index], codec) &&
              forall j :: 0 <= j < e.index && IsClaim(typed[j], codec) ==> ClaimAccepted(typed[j], codec)
    decreases |typed|
  {
    EmitClaimsSucceedsIff(typed, codec);
    EmitClaimsOutput(typed, codec);
    EmitClaimsFirstFailure(typed, codec);
  }

  /** The dispatch succeeds exactly when every claim event is accepted. */
  lemma {:induction false} EmitClaimsSucceedsIff<J, F>(typed: seq<RawActorEvent>, codec: EventCodec<J, F>)
    ensures EmitClaims(typed, codec).Success? <==>
              forall i :: 0 <= i < |typed| && IsClaim(typed[i], codec) ==> ClaimAccepted(typed[i], codec)
    decreases |typed|
  {
    if typed != [] {
      var n := |typed| - 1;
      var init := typed[..n];
      assert forall i :: 0 <= i < n ==> init[i] == typed[i];
      EmitClaimsSucceedsIff(init, codec);
    }
  }

  /** A successful dispatch emits, in order, the block event of each claim event. */
  lemma {:induction false} EmitClaimsOutput<J, F>(typed: seq<RawActorEvent>, codec: EventCodec<J, F>)
    ensures EmitClaims(typed, codec).Success? ==>
              var out := EmitClaims(typed, codec).value;
              var idx := ClaimIndices(typed, codec);
              |out| == |idx| &&
              forall k :: 0 <= k < |out| ==>
                codec.parseClaim(Decoded(typed[idx[k]], codec).event).Some? &&
                out[k] == BlockEventOf(typed[idx[k]], codec)
    decreases |typed|
  {
    if typed != [] && EmitClaims(typed, codec).Success? {
      var n := |typed| - 1;
      var init := typed[..n];
      assert forall i :: 0 <= i < n ==> init[i] == typed[i];
      EmitClaimsOutput(init, codec);
      var last := typed[n];
      var out := EmitClaims(init, codec).value;
      var idx := ClaimIndices(init, codec);
      assert forall k :: 0 <= k < |idx| ==> typed[idx[k]] == init[idx[k]];
      if IsClaim(last, codec) {
        var more := DispatchEvent(last, n, codec).value;
        assert more == [BlockEventOf(last, codec)];
        assert ClaimIndices(typed, codec) == idx + [n];
        assert EmitClaims(typed, codec).value == out + more;
        OutputSnoc(typed, codec, out, idx, n);
      } else {
        assert ClaimIndices(typed, codec) == idx;
        assert EmitClaims(typed, codec).value == out;
      }
    }
  }

  /** The output property survives appending one accepted claim event at position `n`. */
  lemma OutputSnoc<J, F>(typed: seq<RawActorEvent>, codec: EventCodec<J, F>,
                         out: seq<BlockEvent>, idx: seq<nat>, n: nat)
    requires n < |typed| && ClaimAccepted(typed[n], codec)
    requires |out| == |idx| && forall k :: 0 <= k < |idx| ==> idx[k] < |typed|
    requires forall k :: 0 <= k < |out| ==>
               codec.parseClaim(Decoded(typed[idx[k]], codec).event).Some? &&
               out[k] == BlockEventOf(typed[idx[k]], codec)
    ensures var out' := out + [BlockEventOf(typed[n], codec)];
            var idx' := idx + [n];
            |out'| == |idx'| &&
            forall k :: 0 <= k < |out'| ==>
              codec.parseClaim(Decoded(typed[idx'[k]], codec).event).Some? &&
              out'[k] == BlockEventOf(typed[idx'[k]], codec)
  {
  }

  /** A failed dispatch names a rejected claim event with no rejected claim before it. */
  lemma {:induction false} EmitClaimsFirstFailure<J, F>(typed: seq<RawActorEvent>, codec: EventCodec<J, F>)
    ensures EmitClaims(typed, codec).Failure? ==>
              var e := EmitClaims(typed, codec).error;
              e.index < |typed| && IsClaim(typed[e.index], codec) && !ClaimAccepted(typed[e.index], codec) &&
              forall j :: 0 <= j < e.index && IsClaim(typed[j], codec) ==> ClaimAccepted(typed[j], codec)
    decreases |typed|
  {
    if typed != [] {
      var n := |typed| - 1;
      var init := typed[..n];
      assert forall i :: 0 <= i < n ==> init[i] == typed[i];
      EmitClaimsFirstFailure(init, codec);
      EmitClaimsSucceedsIff(init, codec);
    }
  }

  /**
   * What a successful call returns: for every claim event (and for no other
   * event) one block event, in the node's order, with the raw event's own
   * height and emitter and the claim payload its schema produced. Reverted
   * events are not told apart.
   */
  lemma ActorEventsAreClaimSubsequence<J, F>(raws: seq<J>, codec: EventCodec<J, F>)
    requires ActorEvents(Success(Some(raws)), codec).Success?
    ensures ParseRawEvents(raws, codec.parseRaw).Success?
    ensures var out := ActorEvents(Success(Some(raws)), codec).value;
            var typed := ParseRawEvents(raws, codec.parseRaw).value;
            var idx := ClaimIndices(typed, codec);
            |out| == |idx| && |out| <= |raws| &&
            forall k :: 0 <= k < |out| ==>
              idx[k] < |raws| &&
              codec.parseRaw(raws[idx[k]]) == Some(typed[idx[k]]) &&
              IsClaim(typed[idx[k]], codec) &&
              out[k].height == typed[idx[k]].height &&
              out[k].emitter == typed[idx[k]].emitter &&
              codec.parseClaim(Decoded(typed[idx[k]], codec).event) == Some(out[k].event)
  {
    var typed := ParseRawEvents(raws, codec.parseRaw).value;
    EmitClaimsCharacterization(typed, codec);
  }

  /** A single claim event that fails its payload or block-event schema fails the whole call. */
  lemma ActorEventsRejectBadClaim<J, F>(raws: seq<J>, codec: EventCodec<J, F>, i: nat)
    requires ParseRawEvents(raws, codec.parseRaw).Success?
    requires i < |raws|
    requires IsClaim(ParseRawEvents(raws, codec.parseRaw).value[i], codec)
    requires !ClaimAccepted(ParseRawEvents(raws, codec.parseRaw).value[i], codec)
    ensures ActorEvents(Success(Some(raws)), codec).Failure?
  {
    EmitClaimsCharacterization(ParseRawEvents(raws, codec.parseRaw).value, codec);
  }

  // ---------------------------------------------------------------------
  // Fetching actor events: the loop
  // ---------------------------------------------------------------------

  /**
   * Ask the node for the raw events matching `filter`, validate them all,
   * then keep the claim events as block events. Other kinds are dropped.
   */
  method GetActorEvents<J, F>(filter: ActorEventFilter,
                              getActorEventsRaw: ActorEventFilter -> Result<Option<seq<J>>, string>,
                              codec: EventCodec<J, F>)
    returns (r: Result<seq<BlockEvent>, FetchError>)
    ensures r == ActorEvents(getActorEventsRaw(filter), codec)
  {
    var reply := getActorEventsRaw(filter);
    if reply.Failure? {
      return Failure(RpcFailed(reply.error));
    }
    if reply.value.None? || |reply.value.value| == 0 {
      return Success([]);
    }
    var typed := ValidateRawEvents(reply.value.value, codec.parseRaw);
    if typed.Failure? {
      return Failure(typed.error);
    }
    r := DispatchEvents(typed.value, codec);
  }

  /** `rawEvents.map(parse)`: validates every raw event in order and fails at the first bad one. */
  method ValidateRawEvents<J>(raws: seq<J>, parseRaw: J -> Option<RawActorEvent>)
    returns (r: Result<seq<RawActorEvent>, FetchError>)
    ensures r == ParseRawEvents(raws, parseRaw)
  {
    var typed: seq<RawActorEvent> := [];
    var i := 0;
    while i < |raws|
      invariant 0 <= i <= |raws|
      invariant ParseRawEvents(raws[..i], parseRaw) == Success(typed)
    {
      var parsed := parseRaw(raws[i]);
      assert raws[..i + 1][..i] == raws[..i];
      if parsed.None? {
        assert ParseRawEvents(raws[..i + 1], parseRaw) == Failure(InvalidRawEvent(i));
        assert forall j :: 0 <= j < i ==> raws[..i][j] == raws[j];
        return Failure(InvalidRawEvent(i));
      }
      typed := typed + [parsed.value];
      i := i + 1;
    }
    assert raws[..i] == raws;
    return Success(typed);
  }

  /** The dispatch loop: a claim event becomes a block event, any other kind is dropped. */
  method DispatchEvents<J, F>(typed: seq<RawActorEvent>, codec: EventCodec<J, F>)
    returns (r: Result<seq<BlockEvent>, FetchError>)
    ensures r == EmitClaims(typed, codec)
  {
    var emitted: seq<BlockEvent> := [];
    for j := 0 to |typed|
      invariant EmitClaims(typed[..j], codec) == Success(emitted)
    {
      var ev := typed[j];
      assert typed[..j + 1][..j] == typed[..j] && typed[..j + 1][j] == ev;
      var decoded := codec.decodeEntries(ev.entries);
      if decoded.eventType == ClaimKind {
        var claim := codec.parseClaim(decoded.event);
        if claim.None? {
          EmitClaimsFailurePersists(typed, j + 1, codec);
          return Failure(InvalidClaimEvent(j));
        }
        var blockEvent := BlockEvent(ev.height, ev.emitter, claim.value);
        if !codec.acceptsBlockEvent(blockEvent) {
          EmitClaimsFailurePersists(typed, j + 1, codec);
          return Failure(InvalidBlockEvent(j));
        }
        assert DispatchEvent(ev, j, codec) == Success([blockEvent]);
        assert EmitClaims(typed[..j + 1], codec) == Success(emitted + [blockEvent]);
        emitted := emitted + [blockEvent];
      } else {
        // An unknown event type is reported and the event is dropped.
        assert DispatchEvent(ev, j, codec) == Success([]);
        assert EmitClaims(typed[..j + 1], codec) == Success(emitted + []);
        assert emitted + [] == emitted;
      }
    }
    assert typed[..|typed|] == typed;
    return Success(emitted);
  }

  // ---------------------------------------------------------------------
  // Miner info
  // ---------------------------------------------------------------------

  /** A positional JSON-RPC parameter. */
  datatype RpcParam = StringParam(s: string) | NullParam

  /** Prefix of a Filecoin ID address on mainnet. */
  const IdAddressPrefix: string := "f0"

  const StateMinerInfoMethod: string := "Filecoin.StateMinerInfo"

  predicate IsDigit(c: char) {
    '0' <= c <= '9'
  }

  predicate IsDecimal(s: string) {
    |s| >= 1 && forall i :: 0 <= i < |s| ==> IsDigit(s[i])
  }

  function DigitChar(d: nat): (c: char)
    requires d < 10
    ensures IsDigit(c) && c as int - '0' as int == d
  {
    ('0' as int + d) as char
  }

  /** The number a string of decimal digits denotes. */
  function DecimalValue(s: string): nat
    requires forall i :: 0 <= i < |s| ==> IsDigit(s[i])
    decreases |s|
  {
    if s == [] then 0
    else
      assert IsDigit(s[|s| - 1]);
      10 * DecimalValue(s[..|s| - 1]) + (s[|s| - 1] as int - '0' as int)
  }

  /** The decimal digits of `n`, most significant first, without leading zeros. */
  function NatToDecimal(n: nat): (s: string)
    ensures IsDecimal(s)
    ensures s[0] == '0' ==> n == 0 && |s| == 1
    decreases n
  {
    if n < 10 then [DigitChar(n)] else NatToDecimal(n / 10) + [DigitChar(n % 10)]
  }

  lemma {:induction false} DecimalRoundTrip(n: nat)
    ensures DecimalValue(NatToDecimal(n)) == n
    decreases n
  {
    if n >= 10 {
      DecimalRoundTrip(n / 10);
      var s := NatToDecimal(n);
      assert s[..|s| - 1] == NatToDecimal(n / 10);
    }
  }

  /**
   * JavaScript's `Number.prototype.toString()` on an integer: the decimal
   * digits without a leading zero, after a minus sign when negative.
   */
  function IntToString(i: int): (s: string)
    ensures i >= 0 ==> IsDecimal(s) && (s[0] == '0' ==> i == 0 && |s| == 1)
    ensures i < 0 ==> |s| >= 2 && s[0] == '-' && IsDecimal(s[1..]) && s[1] != '0'
  {
    if i < 0 then "-" + NatToDecimal(-i) else NatToDecimal(i)
  }

  /** Reads back an optionally signed decimal integer. */
  function ParseInt(s: string): Option<int> {
    if |s| >= 1 && s[0] == '-' then
      if IsDecimal(s[1..]) then Some(0 - DecimalValue(s[1..]) as int) else None
    else if IsDecimal(s) then Some(DecimalValue(s))
    else None
  }

  /** Reads back the miner id from an ID address `f0<id>`. */
  function ParseIdAddress(address: string): Option<int> {
    if |address| >= 2 && address[..2] == IdAddressPrefix then ParseInt(address[2..]) else None
  }

  lemma IntStringRoundTrip(i: int)
    ensures ParseInt(IntToString(i)) == Some(i)
  {
    if i < 0 {
      var digits := NatToDecimal(-i);
      DecimalRoundTrip(-i);
      var s := "-" + digits;
      assert s[0] == '-' && s[1..] == digits;
      assert IntToString(i) == s;
    } else {
      var digits := NatToDecimal(i);
      DecimalRoundTrip(i);
      assert IntToString(i) == digits && digits[0] != '-';
    }
  }

  /**
   * The parameters of `Filecoin.StateMinerInfo`: the miner's ID address and
   * a null tipset key. The address starts with `f0` and reads back as the
   * miner id, so distinct miners get distinct parameters.
   */
  function MinerInfoParameters(minerId: int): (params: seq<RpcParam>)
    ensures |params| == 2 && params[1] == NullParam
    ensures params[0].StringParam? && |params[0].s| >= 2 && params[0].s[..2] == IdAddressPrefix
    ensures params[0].s[2..] == IntToString(minerId)
    ensures ParseIdAddress(params[0].s) == Some(minerId)
  {
    var address := IdAddressPrefix + IntToString(minerId);
    IntStringRoundTrip(minerId);
    assert address[..2] == IdAddressPrefix && address[2..] == IntToString(minerId);
    [StringParam(address), NullParam]
  }

  /** The part of the miner-info reply the lookup reads. */
  datatype MinerInfo = MinerInfo(peerId: Option<string>)

  /**
   * Best-effort peer-id lookup. The call's result (a null reply included)
   * gives the peer id; a failing call gives none and is not propagated.
   */
  function GetMinerPeerId(minerId: int,
                          rpc: (string, seq<RpcParam>) -> Result<Option<MinerInfo>, string>): (peerId: Option<string>)
    ensures var reply := rpc(StateMinerInfoMethod, MinerInfoParameters(minerId));
            (reply.Failure? || reply == Success(None) ==> peerId == None) &&
            (forall info: MinerInfo :: reply == Success(Some(info)) ==> peerId == info.peerId)
  {
    match rpc(StateMinerInfoMethod, MinerInfoParameters(minerId))
    case Failure(_) => None
    case Success(None) => None
    case Success(Some(info)) => info.peerId
  }
}
