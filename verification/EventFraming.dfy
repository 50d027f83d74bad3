/** The incremental event framer (`EventFramer` in protocol.hpp): what it returns depends on the
    byte stream alone, not on how the stream was cut into chunks. */
module EventFraming {
  import opened Words
  import opened Bytes

  const MAXIMUM: nat := 65536

  datatype Event = Event(code: u32, length: u32, result: u32, body: Bytes)

  // ----- Big-endian words -----

  function Be32(v: u32): (b: Bytes)
    ensures |b| == 4
  {
    [v / 16777216, v / 65536 % 256, v / 256 % 256, v % 256]
  }

  function WordAt(b: Bytes, at: nat): u32
    requires at + 4 <= |b|
  {
    16777216 * (b[at] as int) + 65536 * (b[at + 1] as int) + 256 * (b[at + 2] as int) + (b[at + 3] as int)
  }

  lemma WordOfBe32(b: Bytes, at: nat, v: u32)
    requires at + 4 <= |b| && b[at..at + 4] == Be32(v)
    ensures WordAt(b, at) == v
  {
    assert b[at] == b[at..at + 4][0] && b[at + 1] == b[at..at + 4][1] && b[at + 2] == b[at..at + 4][2] &&
           b[at + 3] == b[at..at + 4][3];
    assert v / 65536 == v / 65536 % 256 + 256 * (v / 65536 / 256) && v / 65536 / 256 == v / 16777216;
    assert v / 256 == v / 256 % 256 + 256 * (v / 256 / 256) && v / 256 / 256 == v / 65536;
  }

  lemma Be32OfWord(b: Bytes, at: nat)
    requires at + 4 <= |b|
    ensures Be32(WordAt(b, at)) == b[at..at + 4]
  {
    var b0: int, b1: int, b2: int := b[at], b[at + 1], b[at + 2];
    var v: int := WordAt(b, at);
    assert v / 256 == 65536 * b0 + 256 * b1 + b2;
    assert v / 65536 == 256 * b0 + b1;
    assert v / 16777216 == b0;
  }

  /** The first byte in which a and b differ, from x on, is smaller in a. */
  predicate Earlier(a: Bytes, b: Bytes, x: nat)
    requires |a| == |b|
    decreases |a| - x
  {
    x < |a| && (a[x] < b[x] || (a[x] == b[x] && Earlier(a, b, x + 1)))
  }

  /** Most significant byte first: words compare as their bytes do. */
  lemma WordsCompareAsBytes(a: Bytes, b: Bytes)
    requires |a| == |b| == 4
    ensures WordAt(a, 0) < WordAt(b, 0) <==> Earlier(a, b, 0)
  {
    assert Earlier(a, b, 4) == false;
    assert Earlier(a, b, 3) <==> a[3] < b[3];
    assert Earlier(a, b, 2) <==> a[2] < b[2] || (a[2] == b[2] && a[3] < b[3]);
    assert Earlier(a, b, 1) <==> a[1] < b[1] || (a[1] == b[1] && Earlier(a, b, 2));
  }

  /** A shortest frame, byte by byte: code, length and result, and nothing else. */
  lemma ShortestFrame(code: u8, result: u8)
    ensures ParseAll([0, 0, 0, code, 0, 0, 0, 12, 0, 0, 0, result]) == Parsed([Event(code, 12, result, [])], false, [])
  {
    var b: Bytes := [0, 0, 0, code, 0, 0, 0, 12, 0, 0, 0, result];
    assert WordAt(b, 0) == code && WordAt(b, 4) == 12 && WordAt(b, 8) == result;
    assert b[12..12] == [] && b[12..] == [];
    assert FrontOf(b) == Frame(Event(code, 12, result, []));
    assert ParseAll([]) == Parsed([], false, []);
  }

  // ----- Parsing a whole stream -----

  /** What the front of a stream is: a frame, too little to tell, or a bad length. */
  datatype Front = Frame(event: Event) | Partial | BadLength

  function FrontOf(b: Bytes): Front {
    if |b| < 12 then Partial
    else
      var length := WordAt(b, 4);
      if length < 12 || length > MAXIMUM then BadLength
      else if |b| < length then Partial
      else Frame(Event(WordAt(b, 0), length, WordAt(b, 8), b[12..length]))
  }

  /** In numbers: a frame needs its announced length, of 12 to 65536 bytes; any other announcement is
      an error as soon as twelve bytes are there. */
  lemma FrontExactly(b: Bytes, length: nat)
    requires |b| >= 12 &&
             length == 16777216 * (b[4] as int) + 65536 * (b[5] as int) + 256 * (b[6] as int) + (b[7] as int)
    ensures FrontOf(b) == BadLength <==> length < 12 || length > 65536
    ensures FrontOf(b) == Partial <==> 12 <= length <= 65536 && |b| < length
    ensures FrontOf(b).Frame? ==> FrontOf(b).event.length == length && FrontOf(b).event.body == b[12..length]
  {
  }

  /** Frames up to the first error or the first incomplete frame, and the bytes left over. */
  datatype Parsed = Parsed(events: seq<Event>, broken: bool, rest: Bytes)

  function ParseAll(b: Bytes): Parsed
    decreases |b|
  {
    match FrontOf(b)
    case Partial => Parsed([], false, b)
    case BadLength => Parsed([], true, b)
    case Frame(event) =>
      var more := ParseAll(b[event.length..]);
      Parsed([event] + more.events, more.broken, more.rest)
  }

  function Encode(e: Event): Bytes {
    Be32(e.code) + Be32(e.length) + Be32(e.result) + e.body
  }

  function EncodeAll(es: seq<Event>): Bytes {
    if es == [] then [] else Encode(es[0]) + EncodeAll(es[1..])
  }

  predicate Wellformed(e: Event) {
    e.length == 12 + |e.body| <= MAXIMUM
  }

  lemma FrontOfEncode(e: Event, rest: Bytes)
    requires Wellformed(e)
    ensures FrontOf(Encode(e) + rest) == Frame(e) && (Encode(e) + rest)[e.length..] == rest
  {
    hide WordAt, Be32;
    var b := Encode(e) + rest;
    WordOfBe32(b, 0, e.code);
    WordOfBe32(b, 4, e.length);
    WordOfBe32(b, 8, e.result);
    assert b[12..e.length] == e.body;
  }

  /** Frames put on the wire come back, and anything behind them is parsed as if alone. */
  lemma {:induction false} ParseOfEncode(es: seq<Event>, rest: Bytes)
    requires forall e <- es :: Wellformed(e)
    ensures ParseAll(EncodeAll(es) + rest) ==
            Parsed(es + ParseAll(rest).events, ParseAll(rest).broken, ParseAll(rest).rest)
  {
    hide Encode, FrontOf, Wellformed;
    if es == [] {
      assert EncodeAll(es) + rest == rest;
    } else {
      var more := EncodeAll(es[1..]) + rest;
      assert EncodeAll(es) + rest == Encode(es[0]) + more;
      assert es[0] in es && forall e <- es[1..] :: e in es;
      FrontOfEncode(es[0], more);
      ParseOfEncode(es[1..], rest);
      assert [es[0]] + (es[1..] + ParseAll(rest).events) == es + ParseAll(rest).events;
    }
  }

  /** Nothing is lost or invented: the stream is its frames followed by the bytes left over. A
      stream that is not broken leaves less than one frame of at most 65536 bytes. */
  lemma {:induction false} EncodeOfParse(b: Bytes)
    ensures var p := ParseAll(b);
            && (forall e <- p.events :: Wellformed(e))
            && b == EncodeAll(p.events) + p.rest
            && (p.broken ==> FrontOf(p.rest) == BadLength)
            && (!p.broken ==> FrontOf(p.rest) == Partial && |p.rest| < MAXIMUM)
    decreases |b|
  {
    hide FrontOf, Encode;
    FrontMeans(b);
    match FrontOf(b)
    case Partial =>
    case BadLength =>
    case Frame(event) =>
      var more := b[event.length..];
      EncodeOfParse(more);
      var p := ParseAll(b);
      assert p.events[0] == event && p.events[1..] == ParseAll(more).events;
      assert b == Encode(event) + more;
  }

  lemma FrontMeans(b: Bytes)
    ensures match FrontOf(b)
            case Partial => |b| < MAXIMUM
            case BadLength => |b| >= 12
            case Frame(event) => Wellformed(event) && event.length <= |b| && b[..event.length] == Encode(event)
  {
    hide WordAt, Be32;
    match FrontOf(b)
    case Partial =>
    case BadLength =>
    case Frame(event) =>
      Be32OfWord(b, 0);
      Be32OfWord(b, 4);
      Be32OfWord(b, 8);
  }

  lemma FrontContinues(a: Bytes, b: Bytes)
    ensures !FrontOf(a).Partial? ==> FrontOf(a + b) == FrontOf(a)
    ensures FrontOf(a).Frame? ==>
              FrontOf(a).event.length <= |a| && (a + b)[FrontOf(a).event.length..] == a[FrontOf(a).event.length..] + b
  {
    hide WordAt;
    if |a| >= 12 {
      WordOfPrefix(a, b, 0);
      WordOfPrefix(a, b, 4);
      WordOfPrefix(a, b, 8);
      if FrontOf(a).Frame? {
        assert (a + b)[12..FrontOf(a).event.length] == a[12..FrontOf(a).event.length];
      }
    }
  }

  /** Bytes that arrive later only continue the parse. */
  lemma {:induction false} ParseContinues(a: Bytes, b: Bytes)
    ensures var first := ParseAll(a); var all := ParseAll(a + b);
            if first.broken then all.broken && all.events == first.events
            else
              var more := ParseAll(first.rest + b);
              all.broken == more.broken && all.events == first.events + more.events && all.rest == more.rest
    decreases |a|
  {
    hide FrontOf;
    FrontMeans(a);
    FrontContinues(a, b);
    match FrontOf(a)
    case Partial =>
    case BadLength =>
    case Frame(event) =>
      var rest := a[event.length..];
      ParseContinues(rest, b);
      assert ParseAll(a + b).events == [event] + ParseAll(rest + b).events;
      var more := ParseAll(ParseAll(rest).rest + b).events;
      assert [event] + (ParseAll(rest).events + more) == [event] + ParseAll(rest).events + more;
  }

  lemma WordOfPrefix(a: Bytes, b: Bytes, at: nat)
    requires at + 4 <= |a|
    ensures WordAt(a + b, at) == WordAt(a, at)
  {
  }

  // ----- Chunks -----

  /** What a framer that is drained after every chunk has returned in the end. */
  datatype Outcome =
    | Running(events: seq<Event>, pending: Bytes)
    | Broken(events: seq<Event>)
    | Refused(events: seq<Event>)

  predicate Fits(chunk: Bytes, pending: Bytes) {
    |chunk| + |pending| <= 2 * MAXIMUM
  }

  function Fed(pending: Bytes, chunks: seq<Bytes>): Outcome
    decreases |chunks|
  {
    if chunks == [] then Running([], pending)
    else if !Fits(chunks[0], pending) then Refused([])
    else
      var p := ParseAll(pending + chunks[0]);
      if p.broken then Broken(p.events)
      else
        match Fed(p.rest, chunks[1..])
        case Running(es, left) => Running(p.events + es, left)
        case Broken(es) => Broken(p.events + es)
        case Refused(es) => Refused(p.events + es)
  }

  /** Nothing more comes out: what is pending is the start of a frame. */
  predicate Drained(pending: Bytes) {
    ParseAll(pending) == Parsed([], false, pending)
  }

  /** Every cut of a stream into chunks gives the frames and the error of the stream parsed
      whole, unless a chunk is refused; what was returned before a refusal is still a prefix. */
  lemma {:induction false} ChunksDoNotMatter(pending: Bytes, chunks: seq<Bytes>)
    requires Drained(pending)
    ensures var whole := ParseAll(pending + Join(chunks));
            match Fed(pending, chunks)
            case Running(es, left) => !whole.broken && whole.events == es && whole.rest == left
            case Broken(es) => whole.broken && whole.events == es
            case Refused(es) => es <= whole.events
    decreases |chunks|
  {
    hide FrontOf;
    if chunks == [] {
      assert pending + Join(chunks) == pending;
    } else if Fits(chunks[0], pending) {
      var now := pending + chunks[0];
      assert pending + Join(chunks) == now + Join(chunks[1..]);
      ParseContinues(now, Join(chunks[1..]));
      var p := ParseAll(now);
      if !p.broken {
        LeftoverIsStuck(now);
        ChunksDoNotMatter(p.rest, chunks[1..]);
      }
    }
  }

  lemma LeftoverIsStuck(b: Bytes)
    ensures !ParseAll(b).broken ==> Drained(ParseAll(b).rest)
  {
    EncodeOfParse(b);
  }

  /** A drained framer never refuses a chunk of up to 65537 bytes. */
  lemma {:induction false} ModestChunksAreTaken(pending: Bytes, chunks: seq<Bytes>)
    requires |pending| < MAXIMUM && forall c <- chunks :: |c| <= MAXIMUM + 1
    ensures !Fed(pending, chunks).Refused?
    decreases |chunks|
  {
    hide ParseAll;
    if chunks != [] {
      assert chunks[0] in chunks;
      EncodeOfParse(pending + chunks[0]);
      var p := ParseAll(pending + chunks[0]);
      if !p.broken {
        assert forall c <- chunks[1..] :: c in chunks;
        ModestChunksAreTaken(p.rest, chunks[1..]);
      }
    }
  }

  /** A chunk of n bytes is taken whatever a drained framer holds. */
  ghost predicate AlwaysTaken(n: nat) {
    forall pending, chunk: Bytes | Drained(pending) && |chunk| == n :: Fits(chunk, pending)
  }

  /** One byte less than a largest frame may be left pending. */
  lemma LargestLeftover(body: Bytes)
    requires |body| == MAXIMUM - 13
    ensures Drained(Be32(0) + Be32(MAXIMUM) + Be32(0) + body)
  {
    hide WordAt, Be32;
    WordOfBe32(Be32(0) + Be32(MAXIMUM) + Be32(0) + body, 4, MAXIMUM);
  }

  /** The bound is exact: a drained framer takes every chunk of n bytes exactly when n is at most
      65537. */
  lemma TakenExactly(n: nat)
    ensures AlwaysTaken(n) <==> n <= MAXIMUM + 1
  {
    hide ParseAll, Be32;
    if n <= MAXIMUM + 1 {
      forall pending, chunk: Bytes | Drained(pending) && |chunk| == n ensures Fits(chunk, pending) {
        EncodeOfParse(pending);
      }
    } else {
      var body, chunk: Bytes := seq(MAXIMUM - 13, _ => 0), seq(n, _ => 0);
      LargestLeftover(body);
      assert !Fits(chunk, Be32(0) + Be32(MAXIMUM) + Be32(0) + body);
    }
  }

  // ----- The object -----

  class EventFramer {
    var pending: Bytes

    ghost predicate Valid()
      reads this
    {
      |pending| <= 2 * MAXIMUM
    }

    constructor ()
      ensures Valid() && pending == []
    {
      pending := [];
    }

    /** False stands for the thrown receive limit. */
    method Feed(data: Bytes) returns (ok: bool)
      requires Valid()
      modifies this
      ensures Valid() && ok == Fits(data, old(pending))
      ensures pending == if ok then old(pending) + data else old(pending)
    {
      if |data| > 2 * MAXIMUM - |pending| {
        return false;
      }
      if |data| > 0 {
        pending := pending + data;
      }
      return true;
    }

    method Next() returns (front: Front)
      requires Valid()
      modifies this
      ensures Valid() && front == FrontOf(old(pending))
      ensures pending == if front.Frame? then old(pending)[front.event.length..] else old(pending)
    {
      if |pending| < 12 {
        return Partial;
      }
      var length := WordAt(pending, 4);
      if length < 12 || length > MAXIMUM {
        return BadLength;
      }
      if |pending| < length {
        return Partial;
      }
      front := Frame(Event(WordAt(pending, 0), length, WordAt(pending, 8), pending[12..length]));
      pending := pending[length..];
    }

    /** The reader's loop: frames until there is none. */
    method Drain() returns (events: seq<Event>, broken: bool)
      requires Valid()
      modifies this
      ensures Valid() && Parsed(events, broken, pending) == ParseAll(old(pending))
    {
      hide FrontOf;
      events := [];
      while true
        invariant Valid()
        invariant var more := ParseAll(pending);
                  ParseAll(old(pending)) == Parsed(events + more.events, more.broken, more.rest)
        decreases |pending|
      {
        EncodeOfParse(pending);
        FramesAreLong(pending);
        var front := Next();
        match front
        case Partial => return events, false;
        case BadLength => return events, true;
        case Frame(event) => events := events + [event];
      }
    }

    /** Feeds the chunks one by one, draining after each. */
    method Receive(chunks: seq<Bytes>) returns (outcome: Outcome)
      requires Valid()
      modifies this
      ensures Valid() && outcome == Fed(old(pending), chunks)
      ensures outcome.Running? ==> pending == outcome.pending
    {
      hide ParseAll;
      var events := [];
      for i := 0 to |chunks|
        invariant Valid() && Fed(old(pending), chunks) == After(events, Fed(pending, chunks[i..]))
      {
        assert chunks[i..][1..] == chunks[i + 1..];
        var ok := Feed(chunks[i]);
        if !ok {
          return Refused(events);
        }
        var more, broken := Drain();
        events := events + more;
        if broken {
          return Broken(events);
        }
      }
      return Running(events, pending);
    }
  }

  /** An outcome with earlier frames in front. */
  function After(events: seq<Event>, outcome: Outcome): Outcome {
    match outcome
    case Running(es, left) => Running(events + es, left)
    case Broken(es) => Broken(events + es)
    case Refused(es) => Refused(events + es)
  }

  lemma FramesAreLong(b: Bytes)
    ensures FrontOf(b).Frame? ==> 12 <= FrontOf(b).event.length <= |b|
  {
  }
}
