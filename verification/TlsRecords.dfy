/** TLS record frames and the byte streams they form. */
module TlsFrames {
  import opened Bytes

  const HEADER: nat := 5

  /** One record as it travels; the reader ignores the version. */
  datatype Frame = Frame(kind: byte, version: nat, data: bytes) {
    predicate Valid() {
      version < 0x1_0000 && |data| < 0x1_0000
    }
  }

  /** What the upper layer gets to see of a record. */
  datatype Message = Message(kind: byte, data: bytes)

  function Encode(f: Frame): (e: bytes)
    ensures |e| == HEADER + |f.data|
  {
    [f.kind] + U16(f.version) + U16(|f.data|) + f.data
  }

  function EncodeAll(fs: seq<Frame>): bytes {
    ConcatMap(Encode, fs)
  }

  function Messages(fs: seq<Frame>): (ms: seq<Message>)
    ensures |ms| == |fs|
  {
    seq(|fs|, i requires 0 <= i < |fs| => Message(fs[i].kind, fs[i].data))
  }

  /** The body length announced by a header. */
  function BodyLen(s: bytes): (n: nat)
    requires |s| >= HEADER
    ensures n < 0x1_0000
  {
    ReadU16(s[3..])
  }

  lemma BodyLenPrefix(s: bytes, t: bytes)
    requires |s| >= HEADER
    ensures BodyLen(s + t) == BodyLen(s)
  {
  }

  /** The stream starts with a whole record. */
  predicate Whole(s: bytes) {
    |s| >= HEADER && |s| >= HEADER + BodyLen(s)
  }

  function First(s: bytes): (f: Frame)
    requires Whole(s)
    ensures f.Valid()
  {
    Frame(s[0], ReadU16(s[1..]), s[HEADER..HEADER + BodyLen(s)])
  }

  datatype Parsed = Parsed(frames: seq<Frame>, rest: bytes)

  /** The reference reader: cut whole records off the front. */
  function Parse(s: bytes): Parsed
    decreases |s|
  {
    if !Whole(s) then Parsed([], s)
    else
      var p := Parse(s[HEADER + BodyLen(s)..]);
      Parsed([First(s)] + p.frames, p.rest)
  }

  lemma EncodeFirst(s: bytes)
    requires Whole(s)
    ensures Encode(First(s)) == s[..HEADER + BodyLen(s)]
  {
    var n := BodyLen(s);
    assert U16(ReadU16(s[1..])) == s[1..3];
    assert U16(n) == s[3..HEADER];
    assert s[..HEADER + n] == [s[0]] + s[1..3] + s[3..HEADER] + s[HEADER..HEADER + n];
  }

  lemma FirstOfEncode(f: Frame, rest: bytes)
    requires f.Valid()
    ensures var s := Encode(f) + rest;
            Whole(s) && BodyLen(s) == |f.data| && First(s) == f && s[HEADER + |f.data|..] == rest
  {
    var s := Encode(f) + rest;
    assert s[1..] == U16(f.version) + (U16(|f.data|) + f.data + rest);
    ReadU16OfU16(f.version, U16(|f.data|) + f.data + rest);
    assert s[3..] == U16(|f.data|) + (f.data + rest);
    ReadU16OfU16(|f.data|, f.data + rest);
    assert s[HEADER..HEADER + |f.data|] == f.data;
  }

  /** A record on the wire: its type, its version and its length in network order, its data. */
  lemma RecordFormat(f: Frame)
    requires f.Valid()
    ensures var e := Encode(f);
            && |e| == 5 + |f.data| && e[0] == f.kind && e[1] as int * 256 + e[2] == f.version
            && e[3] as int * 256 + e[4] == |f.data| && e[5..] == f.data
  {
    NetworkOrder(f.version);
    NetworkOrder(|f.data|);
    var e := Encode(f);
    assert e[1..3] == U16(f.version) && e[3..5] == U16(|f.data|);
    assert e[1] == e[1..3][0] && e[2] == e[1..3][1] && e[3] == e[3..5][0] && e[4] == e[3..5][1];
  }

  lemma EncodeAllCons(f: Frame, fs: seq<Frame>)
    ensures EncodeAll([f] + fs) == Encode(f) + EncodeAll(fs)
  {
    ConcatMapConcat(Encode, [f], fs);
    assert ConcatMap(Encode, [f]) == ConcatMap(Encode, []) + Encode(f);
  }

  lemma ParseStep(f: Frame, tail: bytes)
    requires f.Valid()
    ensures Parse(Encode(f) + tail) == Parsed([f] + Parse(tail).frames, Parse(tail).rest)
  {
    FirstOfEncode(f, tail);
  }

  ghost predicate AllValid(fs: seq<Frame>) {
    forall i :: 0 <= i < |fs| ==> fs[i].Valid()
  }

  lemma Prepend(s: bytes, fs: seq<Frame>, rest: bytes)
    requires Whole(s) && EncodeAll(fs) + rest == s[HEADER + BodyLen(s)..]
    ensures EncodeAll([First(s)] + fs) + rest == s
  {
    EncodeFirst(s);
    EncodeAllCons(First(s), fs);
    Assoc(Encode(First(s)), EncodeAll(fs), rest);
  }

  /** Parsing loses nothing. */
  lemma {:induction false} ParseConserves(s: bytes)
    ensures EncodeAll(Parse(s).frames) + Parse(s).rest == s
    ensures AllValid(Parse(s).frames) && !Whole(Parse(s).rest)
    decreases |s|
  {
    if Whole(s) {
      var tail := s[HEADER + BodyLen(s)..];
      ParseConserves(tail);
      Prepend(s, Parse(tail).frames, Parse(tail).rest);
    } else {
      assert EncodeAll([]) + s == s;
    }
  }

  lemma ParseCons(f: Frame, rest: seq<Frame>, tail: bytes, p: Parsed)
    requires f.Valid() && Parse(EncodeAll(rest) + tail) == p
    ensures Parse(EncodeAll([f] + rest) + tail) == Parsed([f] + p.frames, p.rest)
  {
    EncodeAllCons(f, rest);
    Assoc(Encode(f), EncodeAll(rest), tail);
    ParseStep(f, EncodeAll(rest) + tail);
  }

  lemma HeadTail<T>(s: seq<T>, t: seq<T>)
    requires s != []
    ensures [s[0]] + s[1..] == s && [s[0]] + (s[1..] + t) == s + t
  {
  }

  /** Parsing undoes encoding, whatever follows. */
  lemma {:induction false} ParseEncodeAll(fs: seq<Frame>, tail: bytes)
    requires AllValid(fs)
    ensures Parse(EncodeAll(fs) + tail) == Parsed(fs + Parse(tail).frames, Parse(tail).rest)
  {
    var p := Parse(tail);
    if fs == [] {
      assert EncodeAll(fs) + tail == tail && fs + p.frames == p.frames;
    } else {
      ParseEncodeAll(fs[1..], tail);
      ParseCons(fs[0], fs[1..], tail, Parsed(fs[1..] + p.frames, p.rest));
      HeadTail(fs, p.frames);
    }
  }
}

/** The two ends of the record layer: reassembly of an inbound byte stream cut anywhere, and the
    building of outbound records into buffers of any size. */
module TlsStack {
  import opened Bytes
  import opened TlsFrames

  datatype Status = NEED_MORE | OTHER(code: int)

  /** The protection layer's answer to a record, given all records it has seen. */
  type Upper = seq<Message> -> Status

  /** Every record so far was answered with NEED_MORE. */
  ghost predicate Settled(upper: Upper, fs: seq<Frame>) {
    forall k :: 0 < k <= |fs| ==> upper(Messages(fs[..k])) == NEED_MORE
  }

  /** `status` is the answer to the last record, and the earlier ones asked for more. */
  ghost predicate Answered(upper: Upper, fs: seq<Frame>, status: Status) {
    if status == NEED_MORE then Settled(upper, fs)
    else fs != [] && Settled(upper, fs[..|fs| - 1]) && upper(Messages(fs)) == status
  }

  lemma SettledSnoc(upper: Upper, fs: seq<Frame>, f: Frame)
    requires Settled(upper, fs)
    ensures Answered(upper, fs + [f], upper(Messages(fs + [f])))
  {
    var gs := fs + [f];
    assert gs[..|gs| - 1] == fs && gs[..|gs|] == gs;
    forall k | 0 < k <= |fs|
      ensures gs[..k] == fs[..k]
    {
    }
  }

  class Reader {
    const upper: Upper
    const head: array<byte>
    var headpos: nat
    var input: array<byte>
    var inpos: nat
    var delivered: seq<Frame>

    /** The buffered bytes. */
    ghost function Pending(): bytes
      requires headpos <= head.Length && inpos <= input.Length
      reads this, head, input
    {
      if headpos > 0 then head[..headpos] else input[..inpos]
    }

    ghost predicate Shape()
      reads this, head, input
    {
      && head.Length == HEADER && headpos <= HEADER && inpos <= input.Length && head != input
      && (headpos > 0 ==> input.Length == 0)
      && AllValid(delivered)
    }

    /** Between calls: an incomplete header, an incomplete record whose header is in, or a record
        without body that waits for the next byte. */
    ghost predicate Valid()
      reads this, head, input
    {
      && Shape() && headpos < HEADER
      && (input.Length > 0 ==>
            inpos >= HEADER && input.Length == HEADER + BodyLen(input[..inpos]) &&
            (inpos < input.Length || input.Length == HEADER))
    }

    constructor (upper: Upper)
      ensures Valid() && this.upper == upper && delivered == [] && Pending() == []
      ensures fresh(head) && fresh(input)
    {
      this.upper := upper;
      head := new byte[HEADER];
      headpos, inpos, delivered := 0, 0, [];
      input := new byte[0];
    }

    /** Copies what the header lacks. */
    method CopyHead(buf: bytes) returns (rest: bytes)
      requires head.Length == HEADER && headpos < HEADER
      modifies this`headpos, head
      ensures old(headpos) <= headpos <= HEADER && head[..headpos] + rest == old(head[..headpos]) + buf
      ensures rest != [] ==> headpos == HEADER
    {
      var len := Min(|buf|, HEADER - headpos);
      ghost var before := head[..headpos];
      forall i | 0 <= i < len {
        head[headpos + i] := buf[i];
      }
      assert head[..headpos + len] == before + buf[..len];
      headpos := headpos + len;
      rest := buf[len..];
      assert buf == buf[..len] + rest;
    }

    /** Makes room for the record a complete header announces. */
    method Allocate()
      requires head.Length == HEADER && headpos == HEADER && head != input
      modifies this`headpos, this`input, this`inpos
      ensures headpos == 0 && inpos == HEADER && fresh(input) && head != input
      ensures input.Length == HEADER + BodyLen(head[..]) && input[..inpos] == head[..]
    {
      var size := ReadU16(head[3..]);
      var record := new byte[HEADER + size](_ => 0);
      forall i | 0 <= i < HEADER {
        record[i] := head[i];
      }
      assert record[..HEADER] == head[..];
      assert head[..][3..] == head[3..];
      input, inpos, headpos := record, HEADER, 0;
    }

    /** Continues a partial record header. */
    method FillHead(buf: bytes) returns (rest: bytes)
      requires Valid() && headpos > 0
      modifies this`headpos, this`input, this`inpos, head
      ensures Shape() && headpos < HEADER && (input == old(input) || fresh(input))
      ensures Pending() + rest == old(Pending()) + buf
      ensures rest != [] ==> headpos == 0
      ensures input.Length > 0 ==> inpos == HEADER && input.Length == HEADER + BodyLen(input[..inpos])
    {
      hide AllValid;
      hide BodyLen;
      rest := CopyHead(buf);
      if headpos == HEADER {
        assert head[..headpos] == head[..];
        Allocate();
      }
    }

    /** Hands a record up. */
    method Deliver(f: Frame) returns (status: Status)
      requires f.Valid() && AllValid(delivered) && Settled(upper, delivered)
      modifies this`delivered
      ensures delivered == old(delivered) + [f] && AllValid(delivered)
      ensures status == upper(Messages(delivered))
      ensures EncodeAll(delivered) == EncodeAll(old(delivered)) + Encode(f)
      ensures Answered(upper, delivered, status)
    {
      delivered := delivered + [f];
      status := upper(Messages(delivered));
      SettledSnoc(upper, old(delivered), f);
    }

    /** Processes whole records straight from the caller's buffer; stops at an incomplete one, for
        which it allocates the input buffer. */
    method ProcessInline(buf: bytes) returns (status: Status, rest: bytes)
      requires Shape() && headpos == 0 && input.Length == 0 && buf != [] && Settled(upper, delivered)
      modifies this`input, this`inpos, this`delivered
      ensures Shape() && headpos == 0 && inpos == 0 && (input == old(input) || fresh(input))
      ensures Answered(upper, delivered, status) && old(delivered) <= delivered
      ensures EncodeAll(delivered) + rest == EncodeAll(old(delivered)) + buf
      ensures |rest| <= |buf| && (status != NEED_MORE ==> |rest| < |buf| && input.Length == 0)
      ensures input.Length > 0 ==> |rest| >= HEADER && input.Length == HEADER + BodyLen(rest) > |rest|
      ensures status == NEED_MORE && input.Length == 0 ==> |rest| < HEADER
    {
      hide Encode;
      status, rest := NEED_MORE, buf;
      inpos := 0;
      while |rest| >= HEADER
        invariant Shape() && headpos == 0 && inpos == 0 && input.Length == 0 && input == old(input)
        invariant status == NEED_MORE && Settled(upper, delivered) && old(delivered) <= delivered
        invariant EncodeAll(delivered) + rest == EncodeAll(old(delivered)) + buf
        invariant |rest| <= |buf|
        decreases |rest|
      {
        var len := BodyLen(rest);
        if len + HEADER > |rest| {
          input := new byte[len + HEADER](_ => 0);
          return;
        }
        ghost var prior := EncodeAll(delivered);
        EncodeFirst(rest);
        status := Deliver(First(rest));
        Assoc(prior, rest[..HEADER + len], rest[HEADER + len..]);
        assert rest == rest[..HEADER + len] + rest[HEADER + len..];
        rest := rest[HEADER + len..];
        if status != NEED_MORE {
          return;
        }
      }
    }

    /** Adds to the input buffer. */
    method FillInput(buf: bytes) returns (rest: bytes)
      requires Shape() && headpos == 0 && input.Length > 0
      requires |Pending() + buf| >= HEADER && input.Length == HEADER + BodyLen(Pending() + buf)
      modifies this`inpos, input
      ensures Shape() && inpos >= HEADER && input.Length == HEADER + BodyLen(input[..inpos])
      ensures Pending() + rest == old(Pending()) + buf
      ensures |rest| <= |buf| && (inpos < input.Length ==> rest == [])
      ensures old(inpos) < input.Length && buf != [] ==> |rest| < |buf|
    {
      var len := Min(|buf|, input.Length - inpos);
      ghost var before := input[..inpos];
      forall i | 0 <= i < len {
        input[inpos + i] := buf[i];
      }
      assert input[..inpos + len] == before + buf[..len];
      inpos := inpos + len;
      rest := buf[len..];
      Rejoin(buf, len);
      Assoc(before, buf[..len], rest);
      BodyLenPrefix(input[..inpos], rest);
    }

    /** Processes the buffered record. */
    method FinishInput() returns (status: Status)
      requires Shape() && headpos == 0 && inpos == input.Length >= HEADER && Settled(upper, delivered)
      requires input.Length == HEADER + BodyLen(input[..inpos])
      modifies this`input, this`inpos, this`delivered
      ensures Shape() && input.Length == 0 && fresh(input)
      ensures Answered(upper, delivered, status) && old(delivered) <= delivered
      ensures EncodeAll(delivered) == EncodeAll(old(delivered)) + old(Pending())
    {
      var record := input[..];
      assert record == input[..inpos];
      EncodeFirst(record);
      assert record[..HEADER + BodyLen(record)] == record;
      status := Deliver(First(record));
      input := new byte[0];
      inpos := 0;
    }

    /** Completes a partial header if there is one. */
    method Start(buf: bytes) returns (rest: bytes)
      requires Valid()
      modifies this`headpos, this`input, this`inpos, head
      ensures Shape() && (input == old(input) || fresh(input))
      ensures EncodeAll(delivered) + Pending() + rest == EncodeAll(delivered) + old(Pending()) + buf
      ensures if rest != [] then headpos == 0 else Valid()
      ensures input.Length > 0 ==> inpos >= HEADER && input.Length == HEADER + BodyLen(input[..inpos])
    {
      rest := buf;
      if headpos > 0 {
        rest := FillHead(buf);
        Assoc(EncodeAll(delivered), old(Pending()), buf);
        Assoc(EncodeAll(delivered), Pending(), rest);
      }
    }

    /** FillInput seen from the whole stream. */
    method Buffer(buf: bytes) returns (rest: bytes)
      requires Shape() && headpos == 0 && input.Length > 0
      requires |Pending() + buf| >= HEADER && input.Length == HEADER + BodyLen(Pending() + buf)
      modifies this`inpos, input
      ensures Shape() && inpos >= HEADER && input.Length == HEADER + BodyLen(input[..inpos])
      ensures EncodeAll(delivered) + Pending() + rest == EncodeAll(delivered) + old(Pending()) + buf
      ensures |rest| <= |buf| && (inpos < input.Length ==> rest == [])
      ensures old(inpos) < input.Length && buf != [] ==> |rest| < |buf|
    {
      rest := FillInput(buf);
      Assoc(EncodeAll(delivered), Pending(), rest);
      Assoc(EncodeAll(delivered), old(Pending()), buf);
    }

    /** One turn of the outer loop of `process`. */
    method Turn(buf: bytes) returns (status: Status, rest: bytes)
      requires Shape() && headpos == 0 && buf != [] && Settled(upper, delivered)
      requires input.Length > 0 ==> inpos >= HEADER && input.Length == HEADER + BodyLen(input[..inpos])
      modifies this`headpos, this`input, this`inpos, this`delivered, head, input
      ensures Shape() && (input == old(input) || fresh(input))
      ensures Answered(upper, delivered, status) && old(delivered) <= delivered
      ensures EncodeAll(delivered) + Pending() + rest == EncodeAll(old(delivered)) + old(Pending()) + buf
      ensures |rest| < |buf| || (|rest| == |buf| && input.Length < old(input.Length))
      ensures status == NEED_MORE && rest != [] ==> headpos == 0
      ensures status == NEED_MORE && rest == [] ==> Valid()
      ensures input.Length > 0 ==> inpos >= HEADER && input.Length == HEADER + BodyLen(input[..inpos])
    {
      status, rest := NEED_MORE, buf;
      ghost var prior := EncodeAll(delivered);
      if input.Length == 0 {
        assert prior + Pending() == prior;
        status, rest := ProcessInline(rest);
        assert EncodeAll(delivered) + Pending() == EncodeAll(delivered);
        if status != NEED_MORE || rest == [] {
          return;
        }
        if |rest| < HEADER {
          forall i | 0 <= i < |rest| {
            head[i] := rest[i];
          }
          assert head[..|rest|] == rest;
          headpos := |rest|;
          assert EncodeAll(delivered) + Pending() + [] == EncodeAll(delivered) + rest;
          rest := [];
          return;
        }
      }
      rest := Buffer(rest);
      if input.Length == inpos {
        assert EncodeAll(delivered) + Pending() + rest == (EncodeAll(delivered) + Pending()) + [] + rest;
        status := FinishInput();
      }
    }

    /** One call of `process` with any number of bytes. */
    method Process(buf: bytes) returns (status: Status)
      requires Valid() && Settled(upper, delivered)
      modifies this`headpos, this`input, this`inpos, this`delivered, head, input
      ensures AllValid(delivered) && Answered(upper, delivered, status) && old(delivered) <= delivered
      ensures input == old(input) || fresh(input)
      ensures status == NEED_MORE ==>
                Valid() && EncodeAll(delivered) + Pending() == EncodeAll(old(delivered)) + old(Pending()) + buf
      ensures status != NEED_MORE ==>
                EncodeAll(delivered) <= EncodeAll(old(delivered)) + old(Pending()) + buf
    {
      ghost var stream := EncodeAll(delivered) + Pending() + buf;
      var rest := Start(buf);
      status := NEED_MORE;
      while rest != []
        invariant Shape() && status == NEED_MORE && Settled(upper, delivered) && old(delivered) <= delivered
        invariant input == old(input) || fresh(input)
        invariant EncodeAll(delivered) + Pending() + rest == stream
        invariant rest != [] ==> headpos == 0
        invariant rest == [] ==> Valid()
        invariant input.Length > 0 ==> inpos >= HEADER && input.Length == HEADER + BodyLen(input[..inpos])
        decreases |rest|, input.Length
      {
        status, rest := Turn(rest);
        if status != NEED_MORE {
          return;
        }
      }
      assert EncodeAll(delivered) + Pending() + [] == EncodeAll(delivered) + Pending();
    }
  }

  // ---------------------------------------------------------------- whole streams

  /** A record without a body, complete in its header. */
  predicate Held(pending: bytes) {
    |pending| == HEADER && BodyLen(pending) == 0
  }

  /** What the reader has made of a stream: the parse of it, except that a final record without a
      body may still be held back. */
  ghost predicate Reassembled(stream: bytes, frames: seq<Frame>, pending: bytes) {
    var p := Parse(stream);
    if Held(pending) then p == Parsed(frames + [First(pending)], [])
    else p == Parsed(frames, pending)
  }

  /** Delivered and buffered bytes determine the delivered records. */
  lemma StreamDeterminesRecords(stream: bytes, frames: seq<Frame>, pending: bytes)
    requires AllValid(frames) && EncodeAll(frames) + pending == stream
    requires Whole(pending) ==> Held(pending)
    ensures Reassembled(stream, frames, pending)
  {
    ParseEncodeAll(frames, pending);
    if Held(pending) {
      assert pending[HEADER + BodyLen(pending)..] == [];
      assert Parse(pending) == Parsed([First(pending)], []);
    } else {
      assert Parse(pending) == Parsed([], pending);
      assert frames + [] == frames;
    }
  }

  /** Records delivered from a prefix are the first records of the whole stream. */
  lemma PrefixDeterminesRecords(stream: bytes, frames: seq<Frame>)
    requires AllValid(frames) && EncodeAll(frames) <= stream
    ensures frames <= Parse(stream).frames
  {
    var tail := stream[|EncodeAll(frames)|..];
    assert stream == EncodeAll(frames) + tail;
    ParseEncodeAll(frames, tail);
  }

  lemma SettledUpTo(upper: Upper, all: seq<Frame>, a: seq<Frame>, status: Status)
    requires a <= all && status != NEED_MORE && Answered(upper, a, status)
    ensures forall k :: 0 < k < |a| ==> upper(Messages(all[..k])) == NEED_MORE
    ensures upper(Messages(all[..|a|])) == status
  {
    assert a == all[..|a|];
    forall k | 0 < k < |a|
      ensures upper(Messages(all[..k])) == NEED_MORE
    {
      assert a[..|a| - 1][..k] == all[..k];
    }
  }

  /** The record that stops the reader is the same however the stream was cut. */
  lemma StopIsUnique(upper: Upper, all: seq<Frame>, a: seq<Frame>, sa: Status, b: seq<Frame>, sb: Status)
    requires a <= all && b <= all && sa != NEED_MORE && sb != NEED_MORE
    requires Answered(upper, a, sa) && Answered(upper, b, sb)
    ensures a == b && sa == sb
  {
    SettledUpTo(upper, all, a, sa);
    SettledUpTo(upper, all, b, sb);
    assert a == all[..|a|] && b == all[..|b|];
  }

  /** If one way of cutting a stream stops the reader and another does not, the record that stops it
      has no body, comes last, and is the one the other reader holds. */
  lemma StopsUnlessHeld(upper: Upper, stream: bytes, a: seq<Frame>, pending: bytes, b: seq<Frame>, status: Status)
    requires Settled(upper, a) && Reassembled(stream, a, pending)
    requires status != NEED_MORE && Answered(upper, b, status) && b <= Parse(stream).frames
    ensures Held(pending) && b == a + [First(pending)]
  {
    var all := Parse(stream).frames;
    SettledUpTo(upper, all, b, status);
    assert a == all[..|a|] && b == all[..|b|];
    forall k | 0 < k <= |a|
      ensures upper(Messages(all[..k])) == NEED_MORE
    {
      assert a[..k] == all[..k];
    }
  }

  lemma {:induction false} FlattenPrefix(parts: seq<bytes>, k: nat)
    requires k <= |parts|
    ensures Flatten(parts[..k]) <= Flatten(parts)
  {
    if k < |parts| {
      var init := parts[..|parts| - 1];
      assert init[..k] == parts[..k];
      FlattenPrefix(init, k);
    } else {
      assert parts[..k] == parts;
    }
  }

  /** Feeding a stream in any pieces: as long as the upper layer asks for more, the delivered
      records are the parse of the stream; otherwise they end with the record that stopped it. */
  method Feed(r: Reader, chunks: seq<bytes>) returns (status: Status)
    requires r.Valid() && r.delivered == [] && r.Pending() == []
    modifies r, r.head, r.input
    ensures Answered(r.upper, r.delivered, status)
    ensures status == NEED_MORE ==> r.Valid() && Reassembled(Flatten(chunks), r.delivered, r.Pending())
    ensures status != NEED_MORE ==> r.delivered <= Parse(Flatten(chunks)).frames
  {
    status := NEED_MORE;
    assert EncodeAll(r.delivered) + r.Pending() == Flatten(chunks[..0]);
    for i := 0 to |chunks|
      invariant r.input == old(r.input) || fresh(r.input)
      invariant r.Valid() && Settled(r.upper, r.delivered) && status == NEED_MORE
      invariant EncodeAll(r.delivered) + r.Pending() == Flatten(chunks[..i])
    {
      assert chunks[..i + 1][..i] == chunks[..i];
      ghost var stream := Flatten(chunks[..i]) + chunks[i];
      assert stream == Flatten(chunks[..i + 1]);
      status := r.Process(chunks[i]);
      if status != NEED_MORE {
        FlattenPrefix(chunks, i + 1);
        PrefixDeterminesRecords(Flatten(chunks), r.delivered);
        return;
      }
    }
    assert chunks[..|chunks|] == chunks;
    StreamDeterminesRecords(Flatten(chunks), r.delivered, r.Pending());
  }

  // ---------------------------------------------------------------- building

  datatype BuildStatus = MORE | ALREADY_DONE | INVALID_STATE | FAILURE(code: int)

  /** What the protection layer returns when asked for a record. */
  datatype Event = Record(kind: byte, data: bytes) | Idle | Fail(code: int)

  datatype Drawn = Drawn(frames: seq<Frame>, stop: Event, rest: seq<Event>)

  /** `d` is what was taken already followed by what is still to come. */
  ghost predicate Continues(d: Drawn, news: seq<Frame>, more: Drawn) {
    && d.frames == news + more.frames && d.stop == more.stop && d.rest == more.rest
    && (more.frames == [] ==> d.frames == news)
  }

  lemma ContinuesStep(d: Drawn, news: seq<Frame>, f: Frame, more: Drawn)
    requires Continues(d, news, more.(frames := [f] + more.frames))
    ensures Continues(d, news + [f], more)
    ensures EncodeAll(news + [f]) == EncodeAll(news) + Encode(f)
  {
    assert (news + [f])[..|news + [f]| - 1] == news;
    assert news + ([f] + more.frames) == (news + [f]) + more.frames;
  }

  /** The records the upper layer yields, up to the answer that is not a record. */
  function Draw(script: seq<Event>, version: nat): (d: Drawn)
    ensures !d.stop.Record?
    ensures forall i :: 0 <= i < |d.frames| ==> d.frames[i].version == version
  {
    if script == [] then Drawn([], Idle, [])
    else
      match script[0]
      case Record(kind, data) =>
        var d := Draw(script[1..], version);
        d.(frames := [Frame(kind, version, data)] + d.frames)
      case other => Drawn([], other, script[1..])
  }

  /** All records the upper layer yields. */
  ghost function Offered(script: seq<Event>, version: nat): seq<Frame> {
    if script == [] then []
    else if script[0].Record? then [Frame(script[0].kind, version, script[0].data)] + Offered(script[1..], version)
    else Offered(script[1..], version)
  }

  /** Every answer that is a record offers this record, every other one nothing, in their order. */
  lemma {:induction false} OfferedConcat(a: seq<Event>, b: seq<Event>, version: nat)
    ensures Offered(a + b, version) == Offered(a, version) + Offered(b, version)
    ensures forall kind, data :: Offered([Record(kind, data)], version) == [Frame(kind, version, data)]
    ensures forall code :: Offered([Idle], version) == Offered([Fail(code)], version) == []
  {
    if a == [] {
      assert a + b == b;
    } else {
      assert (a + b)[1..] == a[1..] + b;
      OfferedConcat(a[1..], b, version);
    }
    assert forall e: Event :: [e][1..] == [];
  }

  /** Answers still to come and bytes still to be handed out for them. */
  ghost function Work(script: seq<Event>, version: nat): nat {
    |script| + |EncodeAll(Offered(script, version))|
  }

  /** What one round of questions takes, and what it leaves. */
  lemma {:induction false} DrawTakes(script: seq<Event>, version: nat)
    ensures var d := Draw(script, version);
            && Offered(script, version) == d.frames + Offered(d.rest, version)
            && |d.rest| <= |script| && (script != [] ==> |d.rest| < |script|)
            && (script == [] ==> d.frames == [])
  {
    if script != [] && script[0].Record? {
      DrawTakes(script[1..], version);
      var d := Draw(script[1..], version);
      var f := Frame(script[0].kind, version, script[0].data);
      assert [f] + (d.frames + Offered(d.rest, version)) == [f] + d.frames + Offered(d.rest, version);
    }
  }

  lemma DrawWorks(script: seq<Event>, version: nat)
    ensures var d := Draw(script, version);
            |EncodeAll(d.frames)| + Work(d.rest, version) + (if script == [] then 0 else 1) <= Work(script, version)
    ensures script == [] ==> Draw(script, version).frames == [] && Work(script, version) == 0
  {
    DrawTakes(script, version);
    var d := Draw(script, version);
    ConcatMapConcat(Encode, d.frames, Offered(d.rest, version));
  }

  lemma NextRecords(a: seq<Frame>, b: seq<Frame>, c: seq<Frame>)
    ensures a + (b + c) == a + b + c
  {
  }

  class Writer {
    const version: nat
    var output: bytes
    var outpos: nat
    /** the answers of the upper layer still to come */
    var script: seq<Event>
    /** records taken from the upper layer and bytes handed to the caller, so far */
    ghost var taken: seq<Frame>
    ghost var emitted: bytes

    ghost predicate Valid()
      reads this
    {
      && outpos <= |output| && (outpos == |output| ==> output == [])
      && EncodeAll(taken) == emitted + output[outpos..]
      && forall i :: 0 <= i < |taken| ==> taken[i].version == version
    }

    /** How much there is to do: answers to ask for and bytes to hand out. */
    ghost function Left(): nat
      requires outpos <= |output|
      reads this
    {
      Work(script, version) + |output| - outpos
    }

    constructor (version: nat, script: seq<Event>)
      ensures Valid() && this.version == version && this.script == script
      ensures taken == [] && emitted == [] && output == []
    {
      this.version, this.script := version, script;
      output, outpos, taken, emitted := [], 0, [], [];
    }

    /** Takes records from the upper layer until it has no more; the answer that ended it. */
    method Collect() returns (stop: Event)
      requires Valid() && output == []
      modifies this`output, this`script, this`taken
      ensures var d := Draw(old(script), version);
              taken == old(taken) + d.frames && stop == d.stop && script == d.rest && output == EncodeAll(d.frames)
    {
      ghost var d := Draw(script, version);
      ghost var news: seq<Frame> := [];
      assert news + d.frames == d.frames;
      stop := Idle;
      while true
        invariant taken == old(taken) + news && output == EncodeAll(news)
        invariant Continues(d, news, Draw(script, version))
        decreases |script|
      {
        if script == [] {
          stop := Idle;
          return;
        }
        stop := script[0];
        script := script[1..];
        if !stop.Record? {
          return;
        }
        var f := Frame(stop.kind, version, stop.data);
        ContinuesStep(d, news, f, Draw(script, version));
        taken := taken + [f];
        output := output + Encode(f);
        news := news + [f];
      }
    }

    /** Copies what fits and frees the output once all of it was copied. */
    method Drain(buflen: nat) returns (status: BuildStatus, out: bytes)
      requires Valid() && output != []
      modifies this`output, this`outpos, this`emitted
      ensures Valid() && |out| <= buflen && emitted == old(emitted) + out
      ensures status in {MORE, ALREADY_DONE}
      ensures status == ALREADY_DONE ==> emitted == EncodeAll(taken)
      ensures status == MORE ==> |out| == buflen && |emitted| < |EncodeAll(taken)|
      ensures |output| - outpos == |old(output)| - old(outpos) - |out| && (buflen > 0 ==> |out| > 0)
    {
      var len := Min(buflen, |output| - outpos);
      out := output[outpos..outpos + len];
      assert output[outpos..] == out + output[outpos + len..];
      Assoc(emitted, out, output[outpos + len..]);
      emitted := emitted + out;
      outpos := outpos + len;
      status := MORE;
      if outpos == |output| {
        assert emitted + output[outpos..] == emitted;
        output, outpos := [], 0;
        status := ALREADY_DONE;
      }
    }

    /** One call of `build` with room for `buflen` bytes. */
    method Build(buflen: nat) returns (status: BuildStatus, out: bytes, msglen: Option<nat>)
      requires Valid()
      modifies this`output, this`outpos, this`script, this`taken, this`emitted
      ensures Valid() && |out| <= buflen && emitted == old(emitted) + out
      ensures old(output) != [] ==>
                taken == old(taken) && script == old(script) && status in {MORE, ALREADY_DONE} && msglen == Some(0)
      ensures old(output) == [] ==>
                var d := Draw(old(script), version);
                && taken == old(taken) + d.frames && script == d.rest
                && (d.stop.Fail? ==> status == FAILURE(d.stop.code) && out == [])
                && (!d.stop.Fail? ==>
                      if d.frames == [] then status == INVALID_STATE && out == []
                      else status in {MORE, ALREADY_DONE} && msglen == Some(|EncodeAll(d.frames)|))
      ensures status == ALREADY_DONE ==> emitted == EncodeAll(taken)
      ensures status == MORE ==> |out| == buflen && |emitted| < |EncodeAll(taken)|
      ensures taken + Offered(script, version) == old(taken) + Offered(old(script), version)
      ensures Left() <= old(Left()) && (buflen > 0 ==> Left() < old(Left()) || Left() == 0)
    {
      hide Work;
      hide Offered;
      msglen := None;
      if output == [] {
        ghost var d := Draw(script, version);
        DrawTakes(script, version);
        DrawWorks(script, version);
        NextRecords(taken, d.frames, Offered(d.rest, version));
        hide Draw;
        ConcatMapConcat(Encode, taken, d.frames);
        assert emitted + output[outpos..] == emitted;
        var stop := Collect();
        assert output[0..] == output;
        if stop.Fail? {
          return FAILURE(stop.code), [], None;
        }
        if output == [] {
          assert d.frames == [];
          return INVALID_STATE, [], None;
        }
        msglen := Some(|output|);
      } else {
        msglen := Some(0);
      }
      status, out := Drain(buflen);
    }
  }

  lemma NothingLeft(script: seq<Event>, version: nat)
    ensures Work(script, version) == 0 ==> script == [] && Offered(script, version) == []
  {
  }

  /** Every buffer takes something. */
  ghost predicate AllPositive(sizes: seq<nat>) {
    forall i :: 0 <= i < |sizes| ==> sizes[i] > 0
  }

  /** Successive `build` calls with buffers of any sizes.  What is taken from the upper layer and what
      it has yet to yield is what it had to yield; buffers that are not empty get to the end of it. */
  method Transmit(w: Writer, sizes: seq<nat>) returns (wire: bytes)
    requires w.Valid() && w.taken == [] && w.emitted == []
    modifies w
    ensures w.Valid() && w.emitted == wire && wire <= EncodeAll(w.taken)
    ensures w.output == [] ==> wire == EncodeAll(w.taken)
    ensures w.taken + Offered(w.script, w.version) == Offered(old(w.script), w.version)
    ensures AllPositive(sizes) && |sizes| >= old(w.Left()) ==>
              w.script == [] && w.output == [] && w.taken == Offered(old(w.script), w.version)
  {
    wire := [];
    hide Offered;
    hide Work;
    ghost var all := Offered(w.script, w.version);
    assert w.taken + all == all;
    for i := 0 to |sizes|
      invariant w.Valid() && w.emitted == wire
      invariant w.taken + Offered(w.script, w.version) == all
      invariant AllPositive(sizes) ==> w.Left() + i <= old(w.Left()) || w.Left() == 0
    {
      var status, out, msglen := w.Build(sizes[i]);
      wire := wire + out;
    }
    assert w.output == [] ==> w.emitted + w.output[w.outpos..] == w.emitted;
    if w.Left() == 0 {
      NothingLeft(w.script, w.version);
      assert w.taken + [] == w.taken;
    }
  }

  lemma MessagesSnoc(fs: seq<Frame>, f: Frame)
    ensures Messages(fs + [f]) == Messages(fs) + [Message(f.kind, f.data)]
  {
  }

  /** A prefix of an encoding parses to the first records encoded. */
  lemma ParsePrefix(taken: seq<Frame>, wire: bytes)
    requires AllValid(taken) && wire <= EncodeAll(taken)
    ensures Parse(wire).frames <= taken
    ensures wire == EncodeAll(taken) ==> Parse(wire) == Parsed(taken, [])
  {
    ParseEncodeAll(taken, []);
    assert EncodeAll(taken) + [] == EncodeAll(taken) && taken + Parse([]).frames == taken;
    ParseConserves(wire);
    assert EncodeAll(Parse(wire).frames) <= wire;
    PrefixDeterminesRecords(EncodeAll(taken), Parse(wire).frames);
  }

  /** All records are delivered, or all but a last one without a body, which is held. */
  ghost predicate Arrived(records: seq<Frame>, delivered: seq<Frame>, pending: bytes) {
    records == delivered || (Held(pending) && records == delivered + [First(pending)])
  }

  /** What the peer makes of a prefix of an encoding: the first records, and all of them once all
      bytes are out, save a last one without a body that is still held. */
  lemma PrefixReassembled(taken: seq<Frame>, wire: bytes, frames: seq<Frame>, pending: bytes)
    requires AllValid(taken) && wire <= EncodeAll(taken) && Reassembled(wire, frames, pending)
    ensures frames <= taken
    ensures wire == EncodeAll(taken) ==> Arrived(taken, frames, pending)
    ensures wire == EncodeAll(taken) ==>
              Messages(taken) == Messages(frames) ||
              exists kind :: Messages(taken) == Messages(frames) + [Message(kind, [])]
  {
    ParsePrefix(taken, wire);
    if Held(pending) {
      MessagesSnoc(frames, First(pending));
      assert frames <= frames + [First(pending)];
      assert First(pending).data == [];
    }
  }

  /** A stream cut into pieces of the given lengths, and what is left. */
  method Cut(wire: bytes, lengths: seq<nat>) returns (chunks: seq<bytes>)
    ensures Flatten(chunks) == wire
  {
    chunks := [];
    var rest := wire;
    for i := 0 to |lengths|
      invariant Flatten(chunks) + rest == wire
    {
      var n := Min(lengths[i], |rest|);
      FlattenSnoc(chunks, rest[..n]);
      Assoc(Flatten(chunks), rest[..n], rest[n..]);
      Rejoin(rest, n);
      chunks := chunks + [rest[..n]];
      rest := rest[n..];
    }
    FlattenSnoc(chunks, rest);
    chunks := chunks + [rest];
  }

  /** Build here, process there: for any buffer sizes, any cutting and any upper layers, the peer
      delivers the records the upper layer here yielded, in order, up to the one that stops it; as long
      as it asks for more, all that were taken once all bytes are out, and so all there were after
      enough calls, save a last one without a body that is held. */
  method BuildThenProcess(w: Writer, sizes: seq<nat>, r: Reader, lengths: seq<nat>) returns (status: Status)
    requires w.Valid() && w.taken == [] && w.emitted == []
    requires r.Valid() && r.delivered == [] && r.Pending() == []
    modifies w, r, r.head, r.input
    ensures w.Valid() && Answered(r.upper, r.delivered, status)
    ensures w.taken + Offered(w.script, w.version) == Offered(old(w.script), w.version)
    ensures AllValid(Offered(old(w.script), w.version)) ==> r.delivered <= w.taken
    ensures AllValid(Offered(old(w.script), w.version)) && status == NEED_MORE && w.output == [] ==>
              r.Valid() && Arrived(w.taken, r.delivered, r.Pending())
    ensures AllValid(Offered(old(w.script), w.version)) && status == NEED_MORE &&
            AllPositive(sizes) && |sizes| >= old(w.Left()) ==>
              r.Valid() && Arrived(Offered(old(w.script), w.version), r.delivered, r.Pending())
  {
    ghost var offered := Offered(w.script, w.version);
    var wire := Transmit(w, sizes);
    var chunks := Cut(wire, lengths);
    status := Feed(r, chunks);
    hide Reassembled;
    hide Parse;
    hide Answered;
    hide Offered;
    if AllValid(offered) {
      assert w.taken <= offered;
      ParsePrefix(w.taken, wire);
      if status == NEED_MORE {
        PrefixReassembled(w.taken, wire, r.delivered, r.Pending());
      }
    }
  }
}
