/** The size estimator, ISO/IEC 7816-4 padding, and the length of encrypted queries. */
module QueryPadding {
  import opened Common

  type Bytes = seq<byte>

  // ------------------------------------------------------------- padding

  /** `padded` is `packet`, the byte 0x80, and zeros. */
  ghost predicate IsPadding(padded: Bytes, packet: Bytes) {
    && |packet| < |padded| && padded[..|packet|] == packet && padded[|packet|] == 0x80
    && forall i :: |packet| < i < |padded| ==> padded[i] == 0
  }

  /** Padding can be undone in one way only. */
  lemma PaddingIsUnique(padded: Bytes, a: Bytes, b: Bytes)
    requires IsPadding(padded, a) && IsPadding(padded, b)
    ensures a == b
  {
  }

  method Pad(packet: Bytes, minSize: int) returns (padded: Bytes)
    ensures IsPadding(padded, packet) && |padded| == Max(|packet| + 1, minSize)
  {
    padded := packet + [0x80];
    while |padded| < minSize
      invariant IsPadding(padded, packet) && |padded| <= Max(|packet| + 1, minSize)
    {
      padded := padded + [0];
    }
  }

  datatype PaddingError = ShortPacket | DelimiterNotFound

  method Unpad(padded: Bytes) returns (r: Result<Bytes, PaddingError>)
    ensures r.Ok? ==> IsPadding(padded, r.value)
    ensures r.Err? ==> forall packet :: !IsPadding(padded, packet)
    ensures r == Err(ShortPacket) <==> forall i :: 0 <= i < |padded| ==> padded[i] == 0
  {
    var i := |padded|;
    while true
      invariant 0 <= i <= |padded| && forall j :: i <= j < |padded| ==> padded[j] == 0
      decreases i
    {
      if i == 0 {
        return Err(ShortPacket);
      }
      i := i - 1;
      if padded[i] == 0x80 {
        return Ok(padded[..i]);
      } else if padded[i] != 0 {
        return Err(DelimiterNotFound);
      }
    }
  }

  /** The next multiple of 64. */
  function RoundUp(n: nat): (r: nat)
    ensures n <= r < n + 64 && r % 64 == 0
  {
    (n + 63) / 64 * 64
  }

  method PqPad(packet: Bytes, floor: nat) returns (padded: Bytes)
    ensures IsPadding(padded, packet) && floor <= |padded|
    ensures |padded| == Max(RoundUp(|packet| + 1), floor)
    ensures floor % 64 == 0 ==> |padded| % 64 == 0
  {
    padded := packet + [0x80];
    var target := RoundUp(|padded|);
    if target < floor {
      target := floor;
    }
    while |padded| < target
      invariant IsPadding(padded, packet) && |padded| <= target
    {
      padded := padded + [0];
    }
  }

  // ------------------------------------------------------------- size estimator

  const SAFE_PACKET := 1252
  const INITIAL_SIZE := 512

  /** A timeout, or a response after which the moving average is `average`. */
  datatype Event = Blind | Response(average: int)

  /** The sizes the estimator can hold. */
  predicate IsSize(n: int) {
    n == 512 || n == 1024 || n == 2048 || n == 4096
  }

  function Next(size: int, event: Event): int {
    match event
    case Blind => if MAX_PACKET - size < size then MAX_PACKET else 2 * size
    case Response(average) =>
      if INITIAL_SIZE < average < size / 2 then Max(INITIAL_SIZE, size / 2) else size
  }

  function After(events: seq<Event>): int {
    if events == [] then INITIAL_SIZE else Next(After(events[..|events| - 1]), events[|events| - 1])
  }

  lemma {:induction false} EveryEstimateIsASize(events: seq<Event>)
    ensures IsSize(After(events))
  {
    if events == [] {
    } else {
      EveryEstimateIsASize(events[..|events| - 1]);
    }
  }

  lemma AfterAppend(events: seq<Event>, event: Event)
    ensures After(events + [event]) == Next(After(events), event)
  {
  }

  /** Timeouts only raise the estimate, to the maximum in three; responses only lower it, and by one size. */
  lemma EstimatesMove(events: seq<Event>, event: Event)
    ensures event.Blind? ==> After(events) <= After(events + [event])
    ensures event.Response? ==> After(events) / 2 <= After(events + [event]) <= After(events)
    ensures After(events + [Blind, Blind, Blind]) == MAX_PACKET
  {
    EveryEstimateIsASize(events);
    var one, two := events + [Blind], events + [Blind] + [Blind];
    AfterAppend(events, event);
    AfterAppend(events, Blind);
    AfterAppend(one, Blind);
    AfterAppend(two, Blind);
    assert two + [Blind] == events + [Blind, Blind, Blind];
  }

  /** A response halves the estimate exactly when the average is over 512 and under half of it; a timeout doubles it. */
  lemma EstimateChangesIff(events: seq<Event>, average: int)
    ensures After(events + [Response(average)]) ==
      if 512 < average && 2 * average < After(events) then After(events) / 2 else After(events)
    ensures After(events + [Blind]) == if After(events) == 4096 then 4096 else 2 * After(events)
  {
    EveryEstimateIsASize(events);
    AfterAppend(events, Response(average));
    AfterAppend(events, Blind);
  }

  class QuestionSizeEstimator {
    var minQuestionSize: int
    ghost var history: seq<Event>

    ghost predicate Valid()
      reads this
    {
      minQuestionSize == After(history)
    }

    constructor ()
      ensures Valid() && history == []
    {
      minQuestionSize, history := INITIAL_SIZE, [];
    }

    method BlindAdjust()
      requires Valid()
      modifies this
      ensures Valid() && history == old(history) + [Blind]
    {
      if MAX_PACKET - minQuestionSize < minQuestionSize {
        minQuestionSize := MAX_PACKET;
      } else {
        minQuestionSize := minQuestionSize * 2;
      }
      history := history + [Blind];
    }

    /** `average` is the moving average once the packet's size is added. */
    method Adjust(average: int)
      requires Valid()
      modifies this
      ensures Valid() && history == old(history) + [Response(average)]
    {
      var size := minQuestionSize;
      if average > INITIAL_SIZE && average < size / 2 {
        minQuestionSize := Max(INITIAL_SIZE, size / 2);
      }
      history := history + [Response(average)];
    }
  }

  // ------------------------------------------------------------- encrypted queries

  const MAGIC_SIZE := 8
  const KEY_SIZE := 32
  const HALF_NONCE := 12
  const TAG_SIZE := 16
  const QUERY_OVERHEAD := MAGIC_SIZE + KEY_SIZE + HALF_NONCE + TAG_SIZE

  /** The authenticated cipher a server's construction uses. */
  datatype Aead = Aead(seal: (Bytes, Bytes, Bytes) -> Bytes, open: (Bytes, Bytes, Bytes) -> Option<Bytes>)

  /** Sealing adds a tag, and opening with the same key and nonce undoes it. */
  ghost predicate Lawful(aead: Aead) {
    forall key, nonce, text ::
      && |aead.seal(key, nonce, text)| == |text| + TAG_SIZE
      && aead.open(key, nonce, aead.seal(key, nonce, text)) == Some(text)
  }

  datatype Proto = Udp | Tcp

  datatype Server = Server(magic: Bytes, fragmentsBlocked: bool, viaRelay: bool)

  /** What one query draws at random and the keys it has snapshot. */
  datatype Draw = Draw(nonce: Bytes, xpad: byte, publicKey: Bytes, sharedKey: Bytes)

  /** The length every query of a packet of `size` bytes is given. */
  function PaddedLength(server: Server, proto: Proto, size: nat, estimate: int, xpad: byte): int {
    var wanted := QUERY_OVERHEAD + size;
    var minSize := if proto.Udp? then Max(estimate, wanted) else wanted + xpad as int;
    var padded := Min(MAX_PACKET, (Max(minSize, QUERY_OVERHEAD) + 1 + 63) / 64 * 64);
    if server.fragmentsBlocked && proto.Udp? then SAFE_PACKET
    else if server.viaRelay && proto.Tcp? then MAX_PACKET
    else padded
  }

  /** The longest query that may be sent. */
  function Limit(server: Server, proto: Proto): (r: int)
    ensures r <= MAX_PACKET
  {
    if server.fragmentsBlocked && proto.Udp? then SAFE_PACKET else MAX_PACKET
  }

  /** A query is refused only when its packet and one byte of padding do not fit under the limit. */
  lemma PaddedLengthFitsIff(server: Server, proto: Proto, size: nat, estimate: int, xpad: byte)
    ensures var n := PaddedLength(server, proto, size, estimate, xpad);
      && (QUERY_OVERHEAD + size + 1 <= n <==> QUERY_OVERHEAD + size + 1 <= Limit(server, proto))
      && n <= Limit(server, proto)
      && (!(server.fragmentsBlocked && proto.Udp?) ==> n % 64 == 0)
      && (!server.fragmentsBlocked && proto.Udp? && estimate <= MAX_PACKET ==> estimate <= n)
  {
  }

  /**
    The length in octets: 1252 over UDP to a server that loses fragments, 4096
    over TCP through a relay, and otherwise the first multiple of 64 after what is
    wanted, at most 4096. Over UDP the estimate is wanted at least; over TCP the
    packet with its overhead of 68 and up to 255 more, as drawn.
   */
  lemma PaddedLengthIs(server: Server, proto: Proto, size: nat, estimate: int, xpad: byte)
    ensures
      var n := PaddedLength(server, proto, size, estimate, xpad);
      var wanted := if proto == Udp then Max(estimate, 68 + size) else 68 + size + xpad as int;
      if proto == Udp && server.fragmentsBlocked then n == 1252
      else if proto == Tcp && server.viaRelay then n == 4096
      else n % 64 == 0 && n <= 4096 && n <= wanted + 64 && (wanted < n || n == 4096)
  {
  }

  /** Whatever the packet, a query that fits under the estimate has one length: its size does not show. */
  lemma SmallQueriesLookAlike(server: Server, events: seq<Event>, a: nat, b: nat, xpadA: byte, xpadB: byte)
    requires QUERY_OVERHEAD + a <= After(events) && QUERY_OVERHEAD + b <= After(events)
    ensures PaddedLength(server, Udp, a, After(events), xpadA) == PaddedLength(server, Udp, b, After(events), xpadB)
    ensures !server.fragmentsBlocked ==>
      PaddedLength(server, Udp, a, After(events), xpadA) == Min(After(events) + 64, MAX_PACKET)
  {
    EveryEstimateIsASize(events);
  }

  ghost predicate ValidDraw(server: Server, draw: Draw) {
    |server.magic| == MAGIC_SIZE && |draw.nonce| == HALF_NONCE && |draw.publicKey| == KEY_SIZE
  }

  /** What the server does with a query: it takes the fields apart and opens the rest. */
  function Opened(aead: Aead, sharedKey: Bytes, encrypted: Bytes): Option<Bytes> {
    if |encrypted| < QUERY_OVERHEAD then None
    else
      var header := MAGIC_SIZE + KEY_SIZE;
      aead.open(sharedKey, encrypted[header..header + HALF_NONCE] + Zeros(HALF_NONCE), encrypted[header + HALF_NONCE..])
  }

  /** The query carries the server's magic, the client's key, and the padded packet for that key and nonce. */
  ghost predicate Carries(aead: Aead, server: Server, draw: Draw, encrypted: Bytes, packet: Bytes) {
    && 68 <= |encrypted|
    && encrypted[..8] == server.magic && encrypted[8..40] == draw.publicKey && encrypted[40..52] == draw.nonce
    && var text := aead.open(draw.sharedKey, draw.nonce + Zeros(12), encrypted[52..]);
    && text.Some? && IsPadding(text.value, packet)
  }

  lemma FieldsComeApart(a: Bytes, b: Bytes, c: Bytes, d: Bytes)
    ensures var all := a + b + c + d;
      && all[..|a|] == a && all[|a|..|a| + |b|] == b
      && all[|a| + |b|..|a| + |b| + |c|] == c && all[|a| + |b| + |c|..] == d
  {
  }

  method Encrypt(aead: Aead, estimator: QuestionSizeEstimator, server: Server, packet: Bytes, proto: Proto, draw: Draw)
    returns (r: Result<Bytes, ()>)
    requires Lawful(aead) && ValidDraw(server, draw) && estimator.Valid()
    ensures r.Err? <==> QUERY_OVERHEAD + |packet| + 1 > Limit(server, proto)
    ensures r.Ok? ==> |r.value| == PaddedLength(server, proto, |packet|, After(estimator.history), draw.xpad)
    ensures r.Ok? ==> Carries(aead, server, draw, r.value, packet)
  {
    var minQuestionSize := QUERY_OVERHEAD + |packet|;
    if proto == Udp {
      minQuestionSize := Max(estimator.minQuestionSize, minQuestionSize);
    } else {
      minQuestionSize := minQuestionSize + draw.xpad as int;
    }
    var paddedLength := Min(MAX_PACKET, (Max(minQuestionSize, QUERY_OVERHEAD) + 1 + 63) / 64 * 64);
    if server.fragmentsBlocked && proto == Udp {
      paddedLength := SAFE_PACKET;
    } else if server.viaRelay && proto == Tcp {
      paddedLength := MAX_PACKET;
    }
    PaddedLengthFitsIff(server, proto, |packet|, estimator.minQuestionSize, draw.xpad);
    if QUERY_OVERHEAD + |packet| + 1 > paddedLength {
      return Err(());
    }
    var padded := Pad(packet, paddedLength - QUERY_OVERHEAD);
    var sealed := aead.seal(draw.sharedKey, draw.nonce + Zeros(HALF_NONCE), padded);
    FieldsComeApart(server.magic, draw.publicKey, draw.nonce, sealed);
    return Ok(server.magic + draw.publicKey + draw.nonce + sealed);
  }

  /** Encrypting, opening and unpadding gives the packet back, for every run of the estimator. */
  method RoundTrip(aead: Aead, estimator: QuestionSizeEstimator, server: Server, packet: Bytes, proto: Proto,
                   draw: Draw)
    returns (back: Option<Bytes>)
    requires Lawful(aead) && ValidDraw(server, draw) && estimator.Valid()
    ensures back == if QUERY_OVERHEAD + |packet| + 1 > Limit(server, proto) then None else Some(packet)
  {
    var query := Encrypt(aead, estimator, server, packet, proto, draw);
    if query.Err? {
      return None;
    }
    var padded := Opened(aead, draw.sharedKey, query.value);
    var unpadded := Unpad(padded.value);
    PaddingIsUnique(padded.value, packet, unpadded.value);
    return Some(unpadded.value);
  }
}
