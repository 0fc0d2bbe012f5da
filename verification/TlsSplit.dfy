/** Splitting a ClientHello into segments: by chunks, after the first byte, around the server name, by a bit mask. */
module TlsSplit {
  import opened Common

  type Bytes = seq<byte>

  datatype Segment = Segment(packet: Bytes, isLazy: bool)

  datatype SplitError = EmptyData | ZeroSize | TooShort | BadRange | NoSNI

  type Split = Result<seq<Segment>, SplitError>

  /** The bytes on the wire: the segments one after another. */
  ghost function Wire(segments: seq<Segment>): Bytes {
    if segments == [] then [] else Wire(segments[..|segments| - 1]) + segments[|segments| - 1].packet
  }

  ghost predicate NoneEmpty(segments: seq<Segment>) {
    forall i :: 0 <= i < |segments| ==> segments[i].packet != []
  }

  /** Delayed and ordinary segments alternate, from a delayed one at `first`. */
  ghost predicate Alternates(segments: seq<Segment>, first: nat, disorder: bool) {
    && (forall i :: 0 <= i < |segments| && i < first ==> !segments[i].isLazy)
    && (forall i :: first <= i < |segments| ==> (segments[i].isLazy <==> disorder && (i - first) % 2 == 0))
  }

  /** One more segment, cut from `pos` to `next`. */
  lemma CutAppend(segments: seq<Segment>, raw: Bytes, pos: nat, next: nat, isLazy: bool)
    requires pos <= next <= |raw| && Wire(segments) == raw[..pos]
    ensures Wire(segments + [Segment(raw[pos..next], isLazy)]) == raw[..next]
  {
  }

  /** The first `pos` bytes are cut into full chunks, of which only one that ends the message may be short. */
  ghost predicate Chunked(raw: Bytes, size: nat, disorder: bool, chunks: seq<Segment>, pos: nat) {
    && pos <= |raw| && Wire(chunks) == raw[..pos]
    && NoneEmpty(chunks) && Alternates(chunks, 0, disorder)
    && (forall i :: 0 <= i < |chunks| ==> |chunks[i].packet| <= size)
    && (forall i :: 0 <= i < |chunks| && (i < |chunks| - 1 || pos < |raw|) ==> |chunks[i].packet| == size)
  }

  lemma ChunkAppend(raw: Bytes, size: nat, disorder: bool, chunks: seq<Segment>, pos: nat, n: nat, s: Segment)
    requires Chunked(raw, size, disorder, chunks, pos) && 0 < size
    requires pos < |raw| && n == Min(|raw| - pos, size)
    requires s.packet == raw[pos..pos + n] && (s.isLazy <==> disorder && |chunks| % 2 == 0)
    ensures Chunked(raw, size, disorder, chunks + [s], pos + n)
  {
  }

  method SplitChunks(raw: Bytes, size: nat, disorder: bool) returns (r: Split)
    ensures r.Ok? <==> raw != [] && size != 0
    ensures r.Ok? ==> Chunked(raw, size, disorder, r.value, |raw|) && Wire(r.value) == raw
  {
    if |raw| == 0 {
      return Err(EmptyData);
    }
    if size == 0 {
      return Err(ZeroSize);
    }
    var chunks, pos, curDisorder := [], 0, true;
    while pos < |raw|
      invariant 0 <= pos <= |raw| && Chunked(raw, size, disorder, chunks, pos)
      invariant curDisorder <==> |chunks| % 2 == 0
    {
      var n := Min(|raw| - pos, size);
      var chunk := Segment(raw[pos..pos + n], curDisorder && disorder);
      ChunkAppend(raw, size, disorder, chunks, pos, n, chunk);
      chunks := chunks + [chunk];
      pos := pos + n;
      curDisorder := !curDisorder;
    }
    assert raw[..|raw|] == raw;
    return Ok(chunks);
  }

  function SplitFirstByte(raw: Bytes, disorder: bool): (r: Split)
    ensures r.Ok? <==> |raw| >= 2
    ensures r.Ok? ==> Wire(r.value) == raw && NoneEmpty(r.value) && Alternates(r.value, 0, disorder)
    ensures r.Ok? ==> |r.value| == 2 && |r.value[0].packet| == 1
  {
    if |raw| < 2 then Err(TooShort)
    else
      var first, rest := Segment(raw[..1], disorder), Segment(raw[1..], false);
      CutAppend([], raw, 0, 1, disorder);
      CutAppend([] + [first], raw, 1, |raw|, false);
      assert [first] + [rest] == [first, rest];
      Ok([first, rest])
  }

  /** The bytes before the server name in one segment, and `n` bytes of the name in one segment each. */
  ghost predicate Spelled(raw: Bytes, start: nat, disorder: bool, segments: seq<Segment>, n: nat)
    requires start + n <= |raw|
  {
    && |segments| == n + 1 && segments[0].packet == raw[..start]
    && Wire(segments) == raw[..start + n] && Alternates(segments, 1, disorder)
    && (forall i :: 0 < i < |segments| ==> segments[i].packet == [raw[start + i - 1]])
  }

  lemma SpelledAppend(raw: Bytes, start: nat, disorder: bool, segments: seq<Segment>, n: nat, s: Segment)
    requires start + n < |raw| && Spelled(raw, start, disorder, segments, n)
    requires s.packet == [raw[start + n]] && (s.isLazy <==> disorder && n % 2 == 0)
    ensures Spelled(raw, start, disorder, segments + [s], n + 1)
  {
  }

  lemma SpelledNothing(raw: Bytes, start: nat, disorder: bool)
    requires start <= |raw|
    ensures Spelled(raw, start, disorder, [Segment(raw[..start], false)], 0)
  {
  }

  /** The name one byte at a time, and what follows it in one segment. */
  ghost predicate SplitAround(raw: Bytes, start: nat, end: nat, disorder: bool, segments: seq<Segment>)
    requires start <= end <= |raw|
  {
    && Wire(segments) == raw && Alternates(segments, 1, disorder)
    && |segments| == end - start + 2 && Spelled(raw, start, disorder, segments[..end - start + 1], end - start)
  }

  lemma SpelledEnd(raw: Bytes, start: nat, end: nat, disorder: bool, segments: seq<Segment>, s: Segment)
    requires start <= end <= |raw| && Spelled(raw, start, disorder, segments, end - start)
    requires s.packet == raw[end..] && (s.isLazy <==> disorder && (end - start) % 2 == 0)
    ensures SplitAround(raw, start, end, disorder, segments + [s])
  {
  }

  /** One more byte of the name. */
  method SpellByte(raw: Bytes, start: nat, disorder: bool, segments: seq<Segment>, i: nat, cur: bool)
    returns (after: seq<Segment>)
    requires start + i < |raw| && Spelled(raw, start, disorder, segments, i) && (cur <==> i % 2 == 0)
    ensures Spelled(raw, start, disorder, after, i + 1)
  {
    var segment := Segment([raw[start + i]], cur && disorder);
    SpelledAppend(raw, start, disorder, segments, i, segment);
    return segments + [segment];
  }

  /** What precedes the name, and its bytes. */
  method SpellName(raw: Bytes, start: nat, end: nat, disorder: bool) returns (segments: seq<Segment>, curDisorder: bool)
    requires start <= end <= |raw|
    ensures Spelled(raw, start, disorder, segments, end - start) && (curDisorder <==> (end - start) % 2 == 0)
  {
    curDisorder := true;
    segments := [Segment(raw[..start], false)];
    SpelledNothing(raw, start, disorder);
    for i := 0 to end - start
      invariant Spelled(raw, start, disorder, segments, i) && (curDisorder <==> i % 2 == 0)
    {
      segments := SpellByte(raw, start, disorder, segments, i, curDisorder);
      curDisorder := !curDisorder;
    }
  }

  /** The server name is sent one byte at a time. */
  method SplitSNI(raw: Bytes, start: int, end: int, disorder: bool) returns (r: Split)
    ensures r.Ok? <==> 0 <= start <= end < |raw|
    ensures r.Ok? ==> SplitAround(raw, start, end, disorder, r.value)
  {
    if |raw| == 0 {
      return Err(EmptyData);
    }
    if start > end {
      return Err(BadRange);
    }
    if start < 0 || |raw| <= start || end < 0 || |raw| <= end {
      return Err(BadRange);
    }
    var segments, curDisorder := SpellName(raw, start, end, disorder);
    var last := Segment(raw[end..], curDisorder && disorder);
    SpelledEnd(raw, start, end, disorder, segments, last);
    return Ok(segments + [last]);
  }

  // ------------------------------------------------------------- bit masks

  /** A 64-bit word as the set of its bits that are one. */
  type Mask = set<nat>

  /** Byte `i` is to be sent on its own: the bits are used round and round. */
  predicate Marked(mask: Mask, i: nat) {
    i % 64 in mask
  }

  ghost predicate Unmarked(mask: Mask, from: nat, to: nat) {
    forall i :: from <= i < to ==> !Marked(mask, i)
  }

  ghost predicate StartsRun(mask: Mask, pos: nat) {
    pos == 0 || Marked(mask, pos - 1)
  }

  /** A segment of `n` bytes from `pos` is one marked byte, or a whole run without marks. */
  ghost predicate FollowsMask(mask: Mask, pos: nat, n: nat) {
    (n == 1 && Marked(mask, pos)) || (Unmarked(mask, pos, pos + n) && StartsRun(mask, pos))
  }

  /** Every segment is one marked byte, or all of a run between marks. */
  ghost predicate CutAsMarked(mask: Mask, segments: seq<Segment>) {
    if segments == [] then true
    else
      var init, last := segments[..|segments| - 1], segments[|segments| - 1];
      CutAsMarked(mask, init) && FollowsMask(mask, |Wire(init)|, |last.packet|)
  }

  /** The first `pos` bytes are cut as the mask says. */
  ghost predicate Masked(raw: Bytes, mask: Mask, disorder: bool, segments: seq<Segment>, pos: nat) {
    && pos <= |raw| && Wire(segments) == raw[..pos]
    && NoneEmpty(segments) && Alternates(segments, 0, disorder) && CutAsMarked(mask, segments)
  }

  lemma MaskedAppend(raw: Bytes, mask: Mask, disorder: bool, segments: seq<Segment>, pos: nat, n: nat, s: Segment)
    requires Masked(raw, mask, disorder, segments, pos) && 0 < n && pos + n <= |raw| && FollowsMask(mask, pos, n)
    requires s.packet == raw[pos..pos + n] && (s.isLazy <==> disorder && |segments| % 2 == 0)
    ensures Masked(raw, mask, disorder, segments + [s], pos + n)
  {
  }

  /** One more segment of `n` bytes. */
  method CutMasked(raw: Bytes, mask: Mask, disorder: bool, segments: seq<Segment>, pos: nat, n: nat, cur: bool)
    returns (after: seq<Segment>, curDisorder: bool)
    requires 0 < n && pos + n <= |raw| && FollowsMask(mask, pos, n)
    requires Masked(raw, mask, disorder, segments, pos) && (cur <==> |segments| % 2 == 0)
    ensures Masked(raw, mask, disorder, after, pos + n) && (curDisorder <==> |after| % 2 == 0)
  {
    var segment := Segment(raw[pos..pos + n], cur && disorder);
    MaskedAppend(raw, mask, disorder, segments, pos, n, segment);
    return segments + [segment], !cur;
  }

  /** The bytes up to `start` are cut, and from there to `i` none is marked. */
  ghost predicate MaskLoop(raw: Bytes, mask: Mask, disorder: bool, segments: seq<Segment>, start: nat, i: nat,
                           cur: bool)
  {
    && start <= i && Unmarked(mask, start, i) && StartsRun(mask, start)
    && Masked(raw, mask, disorder, segments, start) && (cur <==> |segments| % 2 == 0)
  }

  lemma MaskLoopStarts(raw: Bytes, mask: Mask, disorder: bool)
    ensures MaskLoop(raw, mask, disorder, [], 0, 0, true)
  {
  }

  lemma MaskLoopSkips(raw: Bytes, mask: Mask, disorder: bool, segments: seq<Segment>, start: nat, i: nat, cur: bool)
    requires MaskLoop(raw, mask, disorder, segments, start, i, cur) && !Marked(mask, i)
    ensures MaskLoop(raw, mask, disorder, segments, start, i + 1, cur)
  {
  }

  /** The run before a marked byte, if there is one, and the byte itself. */
  method CutAtMark(raw: Bytes, mask: Mask, disorder: bool, segments: seq<Segment>, start: nat, i: nat, cur: bool)
    returns (after: seq<Segment>, curDisorder: bool)
    requires MaskLoop(raw, mask, disorder, segments, start, i, cur) && i < |raw| && Marked(mask, i)
    ensures MaskLoop(raw, mask, disorder, after, i + 1, i + 1, curDisorder)
  {
    after, curDisorder := segments, cur;
    if i > start {
      after, curDisorder := CutMasked(raw, mask, disorder, after, start, i - start, curDisorder);
    }
    after, curDisorder := CutMasked(raw, mask, disorder, after, i, 1, curDisorder);
  }

  lemma NextBit(i: nat)
    ensures (i % 64 + 1) % 64 == (i + 1) % 64
  {
  }

  /** One byte of the loop; `marked` is what its bit of the mask says. */
  method MaskByte(raw: Bytes, mask: Mask, disorder: bool, segments: seq<Segment>, start: nat, i: nat, marked: bool,
                  cur: bool)
    returns (after: seq<Segment>, next: nat, curDisorder: bool)
    requires MaskLoop(raw, mask, disorder, segments, start, i, cur) && i < |raw| && marked == Marked(mask, i)
    ensures MaskLoop(raw, mask, disorder, after, next, i + 1, curDisorder)
  {
    after, next, curDisorder := segments, start, cur;
    if marked {
      after, curDisorder := CutAtMark(raw, mask, disorder, segments, start, i, cur);
      next := i + 1;
    } else {
      MaskLoopSkips(raw, mask, disorder, segments, start, i, cur);
    }
  }

  /** What is left after the last marked byte. */
  method CutTail(raw: Bytes, mask: Mask, disorder: bool, segments: seq<Segment>, start: nat, cur: bool)
    returns (after: seq<Segment>)
    requires MaskLoop(raw, mask, disorder, segments, start, |raw|, cur)
    ensures Masked(raw, mask, disorder, after, |raw|)
  {
    after := segments;
    if |raw| > start {
      var tail, _ := CutMasked(raw, mask, disorder, segments, start, |raw| - start, cur);
      after := tail;
    }
  }

  method SplitMask(raw: Bytes, mask: Mask, disorder: bool) returns (r: Split)
    ensures r.Ok? <==> raw != []
    ensures r.Ok? ==> Masked(raw, mask, disorder, r.value, |raw|)
  {
    if |raw| == 0 {
      return Err(EmptyData);
    }
    var segments: seq<Segment>, start: nat, curBit: nat, curDisorder := [], 0, 0, true;
    MaskLoopStarts(raw, mask, disorder);
    for i := 0 to |raw|
      invariant MaskLoop(raw, mask, disorder, segments, start, i, curDisorder) && curBit == i % 64
    {
      segments, start, curDisorder := MaskByte(raw, mask, disorder, segments, start, i, curBit in mask, curDisorder);
      curBit := (curBit + 1) % 64;
      NextBit(i);
    }
    segments := CutTail(raw, mask, disorder, segments, start, curDisorder);
    return Ok(segments);
  }

  /** Two segments that end at the same byte and follow the mask start at the same byte. */
  lemma SameStart(mask: Mask, pos: nat, n: nat, pos': nat, n': nat)
    requires pos + n == pos' + n' && 0 < n && 0 < n'
    requires FollowsMask(mask, pos, n) && FollowsMask(mask, pos', n')
    ensures n == n'
  {
  }

  /** The mask leaves no choice: a message has one cut. */
  lemma {:induction false} MaskedCutIsUnique(mask: Mask, a: seq<Segment>, b: seq<Segment>)
    requires CutAsMarked(mask, a) && NoneEmpty(a) && CutAsMarked(mask, b) && NoneEmpty(b) && Wire(a) == Wire(b)
    ensures |a| == |b| && forall i :: 0 <= i < |a| ==> a[i].packet == b[i].packet
  {
    if a == [] || b == [] {
    } else {
      var initA, lastA, initB, lastB := a[..|a| - 1], a[|a| - 1].packet, b[..|b| - 1], b[|b| - 1].packet;
      SameStart(mask, |Wire(initA)|, |lastA|, |Wire(initB)|, |lastB|);
      SameTail(Wire(initA), lastA, Wire(initB), lastB);
      MaskedCutIsUnique(mask, initA, initB);
    }
  }

  lemma SameTail(a: Bytes, x: Bytes, b: Bytes, y: Bytes)
    requires a + x == b + y && |x| == |y|
    ensures a == b && x == y
  {
    assert a == (a + x)[..|a|] && b == (b + y)[..|a|] && x == (a + x)[|a|..] && y == (b + y)[|a|..];
  }

  /** The byte numbered `block` has a bit. */
  ghost predicate Covers(mask: Mask, block: nat) {
    exists bit :: 8 * block <= bit < 8 * block + 8 && bit in mask
  }

  /** Every byte of the mask has a bit, and the lowest bit is set. */
  ghost predicate Dense(mask: Mask) {
    0 in mask && forall block :: 0 <= block < 8 ==> Covers(mask, block)
  }

  /** Any fifteen bytes in a row hold a marked one. */
  lemma MarkWithinFifteen(mask: Mask, pos: nat) returns (i: nat)
    requires Dense(mask)
    ensures pos <= i < pos + 15 && Marked(mask, i)
  {
    var aligned := (pos + 7) / 8;
    var block := aligned % 8;
    assert Covers(mask, block);
    var bit :| 8 * block <= bit < 8 * block + 8 && bit in mask;
    i := 8 * aligned + (bit - 8 * block);
    assert aligned == 8 * (aligned / 8) + block;
    assert i == 64 * (aligned / 8) + bit;
  }

  /** No segment of a dense mask is over fourteen bytes, and the first is a single byte. */
  lemma {:induction false} DenseSegmentsAreShort(mask: Mask, segments: seq<Segment>)
    requires Dense(mask) && CutAsMarked(mask, segments) && NoneEmpty(segments)
    ensures forall i :: 0 <= i < |segments| ==> |segments[i].packet| <= 14
    ensures segments != [] ==> |segments[0].packet| == 1
  {
    if segments == [] {
    } else {
      var init, last := segments[..|segments| - 1], segments[|segments| - 1];
      DenseSegmentsAreShort(mask, init);
      var pos := |Wire(init)|;
      var i := MarkWithinFifteen(mask, pos);
      assert |last.packet| <= 14;
      assert Marked(mask, 0);
      if init != [] {
        assert segments[0] == init[0];
      }
    }
  }

  // ------------------------------------------------------------- mask generation

  /** The lowest bytes of two words are the same. */
  ghost predicate SameLowByte(a: Mask, b: Mask) {
    forall bit :: 0 <= bit < 8 ==> (bit in a <==> bit in b)
  }

  /** The bits of the word are those in the list. */
  ghost predicate HasBits(mask: Mask, bits: seq<nat>) {
    forall bit :: bit in mask <==> bit in bits
  }

  /** The word with bit `bit` of the byte numbered `block` set, after turning that byte left by `turn`. */
  method SetRotated(mask: Mask, bit: nat, turn: int, block: nat, ghost bits: seq<nat>)
    returns (r: Mask, ghost bits': seq<nat>)
    requires HasBits(mask, bits)
    ensures HasBits(r, bits') && bits' == bits + [8 * block + (bit + turn) % 8]
  {
    var position := 8 * block + (bit + turn) % 8;
    return mask + {position}, bits + [position];
  }

  function Modulo(x: nat, n: nat): (r: nat)
    requires n > 0
    ensures r < n
  {
    x % n
  }

  /** The seed modulo `n` as a number of places; turning a byte by the whole seed is turning it by the seed modulo 8. */
  method Places(seed: bv64, n: nat) returns (turn: int)
    requires n > 0
    ensures 0 <= turn < n
  {
    return Modulo(seed as nat, n);
  }

  /** The bit is in the byte numbered `block`. */
  predicate InByte(bit: nat, block: nat) {
    8 * block <= bit < 8 * block + 8
  }

  /** Bytes 0 to 3 of a generated word: the fixed bits, one or two bits in byte 1, and one in bytes 2 and 3 each. */
  ghost predicate LowPattern(mask: Mask, bits: seq<nat>) {
    && HasBits(mask, bits) && |bits| >= 8 && bits[0] == 0 && bits[1] == 3 && bits[2] == 5 && bits[3] == 7
    && InByte(bits[4], 1) && InByte(bits[5], 1) && InByte(bits[6], 2) && InByte(bits[7], 3)
  }

  /** And with bytes 4 to 7: three bits in byte 4, of which the last two are three apart, and one in every other. */
  ghost predicate IsPattern(mask: Mask, bits: seq<nat>) {
    && LowPattern(mask, bits) && |bits| == 14
    && 32 <= bits[8] < 34 && 34 <= bits[9] < 37 && bits[10] == bits[9] + 3
    && InByte(bits[11], 5) && InByte(bits[12], 6) && InByte(bits[13], 7)
  }

  /** Bytes 0 to 3 of the generated word, and the seed as it is then. */
  method GenLowBytes(random: bv64) returns (mask: Mask, seed: bv64, ghost bits: seq<nat>)
    ensures LowPattern(mask, bits) && |bits| == 8
  {
    seed := random;
    mask, bits := {0, 3, 5, 7}, [0, 3, 5, 7];

    seed := seed ^ (seed >> 13);
    var turn := Places(seed, 8);
    mask, bits := SetRotated(mask, 7, turn, 1, bits);
    seed := seed ^ (seed << 11);
    turn := Places(seed, 7);
    mask, bits := SetRotated(mask, 7, -turn + 1, 1, bits);

    seed := seed ^ (seed >> 17);
    turn := Places(seed, 8);
    mask, bits := SetRotated(mask, 0, turn, 2, bits);

    seed := seed ^ (seed << 5);
    turn := Places(seed, 8);
    mask, bits := SetRotated(mask, 0, turn, 3, bits);
  }

  /** The generator, for every value `random` of the random source. */
  method GenPatternMask(random: bv64) returns (mask: Mask)
    ensures Dense(mask) && SameLowByte(mask, {0, 3, 5, 7})
    ensures exists bits :: IsPattern(mask, bits)
  {
    var seed;
    ghost var bits;
    mask, seed, bits := GenLowBytes(random);

    seed := seed ^ (seed >> 12);
    var turn := Places(seed, 2);
    mask, bits := SetRotated(mask, 0, turn, 4, bits);
    turn := Places(seed, 3);
    mask, bits := SetRotated(mask, 0, turn + 2, 4, bits);
    mask, bits := SetRotated(mask, 0, turn + 5, 4, bits);

    seed := seed ^ (seed << 25);
    turn := Places(seed, 8);
    mask, bits := SetRotated(mask, 0, turn, 5, bits);

    seed := seed ^ (seed >> 27);
    turn := Places(seed, 8);
    mask, bits := SetRotated(mask, 0, turn, 6, bits);

    seed := seed ^ (seed << 13);
    turn := Places(seed, 8);
    mask, bits := SetRotated(mask, 0, turn, 7, bits);
    assert IsPattern(mask, bits);
    PatternIsDense(mask, bits);
  }

  lemma CoversAt(mask: Mask, bits: seq<nat>, i: nat, block: nat)
    requires HasBits(mask, bits) && i < |bits| && InByte(bits[i], block)
    ensures Covers(mask, block)
  {
    assert bits[i] in bits;
  }

  lemma LowBit(mask: Mask, bits: seq<nat>, bit: nat)
    requires IsPattern(mask, bits) && bit < 8
    ensures bit in mask <==> bit in {0, 3, 5, 7}
  {
    assert bits[0] in bits && bits[1] in bits && bits[2] in bits && bits[3] in bits;
    if bit in bits {
      var i :| 0 <= i < 14 && bits[i] == bit;
      assert i < 4;
    }
  }

  lemma PatternIsDense(mask: Mask, bits: seq<nat>)
    requires IsPattern(mask, bits)
    ensures Dense(mask) && SameLowByte(mask, {0, 3, 5, 7})
  {
    forall bit: nat | bit < 8
      ensures bit in mask <==> bit in {0, 3, 5, 7}
    {
      LowBit(mask, bits, bit);
    }
    assert bits[0] in bits;
    CoversAt(mask, bits, 0, 0);
    CoversAt(mask, bits, 4, 1);
    CoversAt(mask, bits, 6, 2);
    CoversAt(mask, bits, 7, 3);
    CoversAt(mask, bits, 8, 4);
    CoversAt(mask, bits, 11, 5);
    CoversAt(mask, bits, 12, 6);
    CoversAt(mask, bits, 13, 7);
  }
}
