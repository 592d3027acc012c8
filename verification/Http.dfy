/** Delivering the body of an HTTP message to an API request. */
module Http {
  import opened Common
  import opened HttpBody

  /** siri_api_request_t, as far as the body is concerned. */
  class Request {
    var buf: array?<byte>
    var len: nat
    ghost var got: Bytes  // all that on_body was called with

    ghost predicate Valid()
      reads this, buf
    {
      len > 0 ==> buf != null && buf.Length == len && |got| <= len && buf[..|got|] == got
    }

    constructor ()
      ensures Valid() && buf == null && len == 0 && got == []
    {
      buf, len, got := null, 0, [];
    }

    /** api__headers_complete_cb */
    method HeadersComplete(contentLength: nat)
      requires buf == null && len == 0 && got == []
      modifies this
      ensures Valid() && got == [] && (buf == null || fresh(buf))
      ensures len == if contentLength != ULLONG_MAX then contentLength else 0
    {
      if contentLength != ULLONG_MAX {
        buf := new byte[contentLength];
        len := contentLength;
      }
    }

    /** api__body_cb: contentLength is what is still to come behind these bytes. */
    method Body(contentLength: nat, at: Bytes)
      requires Valid() && (len > 0 ==> |got| + |at| + contentLength == len)
      modifies this`got, buf
      ensures Valid() && got == old(got) + at
    {
      got := got + at;
      if |at| == 0 || len == 0 {
        assert old(got) + [] == old(got);
        return;
      }
      var offset := len - (contentLength + |at|);
      forall i | 0 <= i < |at| {
        buf[offset + i] := at[i];
      }
    }
  }

  class Parser {
    var state: Phase
    var contentLength: nat
    var nread: nat

    ghost function St(): State
      reads this
    {
      State(state, contentLength, nread)
    }

    /** The parser when the headers of a message are complete. */
    constructor (state: Phase, contentLength: nat)
      ensures St() == State(state, contentLength, 0)
    {
      this.state, this.contentLength, nread := state, contentLength, 0;
    }

    /** The states around the data of a chunk, for one byte. */
    method ChunkByte(ch: byte)
      requires HttpBody.Valid(St()) && !Ended(state) && !state.BodyIdentity? && !state.ChunkData?
      modifies this
      ensures (St(), []) == Step(old(St()), ch) && !state.MessageDone?
    {
      if ParsingHeader(state) {
        if nread + 1 > MAX_HEADER_SIZE {
          state := Error(HeaderOverflow);
          return;
        }
      }
      var count := nread + if ParsingHeader(state) then 1 else 0;
      var unhexVal := Unhex(ch);
      match state {
        case ChunkSizeStart =>
          if unhexVal == -1 {
            state := Error(InvalidChunkSize);
            return;
          }
          contentLength := unhexVal;
          state := ChunkSize;
        case ChunkSize =>
          if ch == CR {
            state := ChunkSizeAlmostDone;
          } else if unhexVal == -1 {
            if ch == SEMICOLON || ch == SP {
              state := ChunkParameters;
            } else {
              state := Error(InvalidChunkSize);
              return;
            }
          } else {
            var t := contentLength;
            t := t * 16;
            t := t + unhexVal;
            if (ULLONG_MAX - 16) / 16 < contentLength {
              state := Error(InvalidContentLength);
              return;
            }
            contentLength := t;
          }
        case ChunkParameters =>
          if ch == CR {
            state := ChunkSizeAlmostDone;
          }
        case ChunkSizeAlmostDone =>
          if ch != LF {
            state := Error(Strict);
            return;
          }
          count := 0;
          state := if contentLength == 0 then Trailer else ChunkData;
        case ChunkDataAlmostDone =>
          if ch != CR {
            state := Error(Strict);
            return;
          }
          state := ChunkDataDone;
        case ChunkDataDone =>
          if ch != LF {
            state := Error(Strict);
            return;
          }
          count := 0;
          state := ChunkSizeStart;
      }
      nread := count;
    }

    /** n bytes of data are taken at once; when they complete a body of a given length, what is
        marked is handed over. */
    method TakeBody(data: Bytes, p: nat, mark: int, n: nat, ar: Request,
                    ghost start: State, ghost was: Bytes, ghost body: Bytes)
      requires HttpBody.Valid(St()) && (state.BodyIdentity? || state.ChunkData?)
      requires ar.Valid() && p < |data| && n == if contentLength < |data| - p then contentLength else |data| - p
      requires Ahead(start, data, St(), body, p) && Pending(was, body, ar.got, data, mark, p)
      requires ar.len > 0 ==> state.BodyIdentity? && |was + body| + contentLength == ar.len
      modifies this`state, this`contentLength, ar`got, ar.buf
      ensures ar.Valid() && HttpBody.Valid(St())
      ensures n > 0 && contentLength == old(contentLength) - n
      ensures state == if contentLength > 0 then old(state)
                       else if old(state).BodyIdentity? then MessageDone else ChunkDataAlmostDone
      ensures var now := body + data[p..p + n];
              && (ar.len > 0 ==> |was + now| + contentLength == ar.len)
              && (state.MessageDone? ==> Feed(start, data) == Fed(St(), now, p + n) && ar.got == was + now)
              && (!state.MessageDone? ==>
                    && Ahead(start, data, St(), now, p + n)
                    && Pending(was, now, ar.got, data, if mark == -1 then p else mark, p + n))
    {
      hide Feed, Step, Ahead, Pending;
      AheadRun(start, data, St(), body, p, n);
      PendingMore(was, body, ar.got, data, mark, p, n);
      contentLength := contentLength - n;
      if contentLength == 0 {
        if state.BodyIdentity? {
          state := MessageDone;
          PendingSlice(was, body + data[p..p + n], ar.got, data, if mark == -1 then p else mark, p + n);
          ar.Body(contentLength, data[if mark == -1 then p else mark..p + n]);
        } else {
          state := ChunkDataAlmostDone;
        }
      }
    }

    /** A byte around the data of a chunk; what is marked is handed over behind it. */
    method TakeOther(data: Bytes, p: nat, mark: int, ar: Request, ghost start: State, ghost was: Bytes, ghost body: Bytes)
      requires HttpBody.Valid(St()) && !Ended(state) && !state.BodyIdentity? && !state.ChunkData?
      requires ar.Valid() && ar.len == 0 && p < |data|
      requires Ahead(start, data, St(), body, p) && Pending(was, body, ar.got, data, mark, p)
      modifies this, ar`got, ar.buf
      ensures ar.Valid() && HttpBody.Valid(St()) && !state.MessageDone?
      ensures state.Error? ==> Feed(start, data) == Fed(St(), body, p) && was <= ar.got <= was + body
      ensures !state.Error? ==>
                Ahead(start, data, St(), body, p + 1) && Pending(was, body, ar.got, data, -1, p + 1)
    {
      hide Feed, Step, Ahead, Pending;
      AheadOne(start, data, St(), body, p);
      PendingSlice(was, body, ar.got, data, mark, p);
      ChunkByte(data[p]);
      if !state.Error? {
        if mark != -1 {
          ar.Body(contentLength, data[mark..p]);
        }
        PendingNone(was, body, ar.got, data, p + 1);
      }
    }

    /** http_parser_execute on the part of a read that belongs to the body; it returns where the
        body ends, or the whole read.  Everything but what a failure leaves undelivered has been
        handed to the request, in order. */
    method Execute(data: Bytes, ar: Request) returns (parsed: nat)
      requires HttpBody.Valid(St()) && !Ended(state) && ar.Valid()
      requires ar.len > 0 ==> state.BodyIdentity? && |ar.got| + contentLength == ar.len
      modifies this, ar`got, ar.buf
      ensures ar.Valid()
      ensures var f := Feed(old(St()), data);
              && St() == f.st && parsed == f.taken
              && (state.Error? ==> old(ar.got) <= ar.got <= old(ar.got) + f.body)
              && (!state.Error? ==> ar.got == old(ar.got) + f.body)
      ensures ar.len > 0 ==> (state.BodyIdentity? || state.MessageDone?) && |ar.got| + contentLength == ar.len
    {
      hide Request.Valid, HttpBody.Valid, Feed, Step, Ahead, Pending;
      ghost var start, was := St(), ar.got;
      ghost var body: Bytes := [];
      var p, mark := 0, -1;
      AtStart(start, data, was);
      while p < |data|
        invariant 0 <= p <= |data| && HttpBody.Valid(St()) && !Ended(state) && ar.Valid()
        invariant Ahead(start, data, St(), body, p)
        invariant Pending(was, body, ar.got, data, mark, p)
        invariant mark != -1 ==> state.ChunkDataAlmostDone? || (p == |data| && (state.ChunkData? || state.BodyIdentity?))
        invariant ar.len > 0 ==> state.BodyIdentity? && |was + body| + contentLength == ar.len
      {
        if state.BodyIdentity? || state.ChunkData? {
          var n := if contentLength < |data| - p then contentLength else |data| - p;
          TakeBody(data, p, mark, n, ar, start, was, body);
          mark := if mark == -1 then p else mark;
          body := body + data[p..p + n];
          p := p + n;
          if state.MessageDone? {
            return p;
          }
        } else {
          TakeOther(data, p, mark, ar, start, was, body);
          if state.Error? {
            return p;
          }
          p, mark := p + 1, -1;
          if state.Trailer? {
            PendingSlice(was, body, ar.got, data, mark, p);
            AheadEnd(start, data, St(), body, p);
            return p;
          }
        }
      }
      AheadEnd(start, data, St(), body, p);
      PendingSlice(was, body, ar.got, data, mark, p);
      if mark != -1 {
        ar.Body(contentLength, data[mark..p]);
      }
      return |data|;
    }
  }

  /** From the start of a read up to p the parser has come to st, with `body`. */
  ghost predicate Ahead(start: State, data: Bytes, st: State, body: Bytes, p: nat) {
    && HttpBody.Valid(start) && HttpBody.Valid(st) && p <= |data|
    && var g := Feed(st, data[p..]);
       Feed(start, data) == Fed(g.st, body + g.body, p + g.taken)
  }

  lemma AtStart(st: State, data: Bytes, was: Bytes)
    requires HttpBody.Valid(st)
    ensures Ahead(st, data, st, [], 0) && Pending(was, [], was, data, -1, 0)
  {
    hide Feed;
    assert data[0..] == data && was + [] == was;
    var g := Feed(st, data);
    assert [] + g.body == g.body;
  }

  lemma AheadRun(start: State, data: Bytes, st: State, body: Bytes, p: nat, n: nat)
    requires Ahead(start, data, st, body, p) && (st.phase.BodyIdentity? || st.phase.ChunkData?)
    requires 0 < n <= st.left && p + n <= |data|
    ensures var end := if st.phase.BodyIdentity? then MessageDone else ChunkDataAlmostDone;
            var u := State(if n == st.left then end else st.phase, st.left - n, st.nread);
            && HttpBody.Valid(u)
            && (u.phase == MessageDone ==> Feed(start, data) == Fed(u, body + data[p..p + n], p + n))
            && (u.phase != MessageDone ==> Ahead(start, data, u, body + data[p..p + n], p + n))
  {
    hide Feed, Step;
    FeedRun(st, data[p..], n);
    assert data[p..][..n] == data[p..p + n] && data[p..][n..] == data[p + n..];
    if n != st.left || !st.phase.BodyIdentity? {
      var end := if st.phase.BodyIdentity? then MessageDone else ChunkDataAlmostDone;
      var g := Feed(State(if n == st.left then end else st.phase, st.left - n, st.nread), data[p + n..]);
      assert body + (data[p..p + n] + g.body) == body + data[p..p + n] + g.body;
    }
  }

  lemma AheadOne(start: State, data: Bytes, st: State, body: Bytes, p: nat)
    requires Ahead(start, data, st, body, p) && !Ended(st.phase) && p < |data|
    requires !st.phase.BodyIdentity? && !st.phase.ChunkData?
    ensures var u := Step(st, data[p]).0;
            && HttpBody.Valid(u)
            && (u.phase.Error? ==> Feed(start, data) == Fed(u, body, p))
            && (!u.phase.Error? ==> Ahead(start, data, u, body, p + 1))
  {
    hide Feed;
    FeedOne(st, data[p..]);
    assert data[p..][1..] == data[p + 1..];
    var g := Feed(Step(st, data[p]).0, data[p + 1..]);
    assert Step(st, data[p]).1 == [];
    assert body + ([] + g.body) == body + g.body && body + [] == body;
  }

  lemma AheadEnd(start: State, data: Bytes, st: State, body: Bytes, p: nat)
    requires Ahead(start, data, st, body, p) && (p == |data| || Ended(st.phase))
    ensures Feed(start, data) == Fed(st, body, p)
  {
    assert Feed(st, data[p..]) == Fed(st, [], 0);
    assert body + [] == body;
  }

  /** What has been delivered, and what is marked for delivery. */
  ghost predicate Pending(was: Bytes, body: Bytes, got: Bytes, data: Bytes, mark: int, p: nat) {
    && p <= |data| && was <= got
    && (mark == -1 || 0 <= mark <= p)
    && got + (if mark == -1 then [] else data[mark..p]) == was + body
  }

  lemma PendingMore(was: Bytes, body: Bytes, got: Bytes, data: Bytes, mark: int, p: nat, n: nat)
    requires Pending(was, body, got, data, mark, p) && p + n <= |data|
    ensures Pending(was, body + data[p..p + n], got, data, if mark == -1 then p else mark, p + n)
    ensures |was + (body + data[p..p + n])| == |was + body| + n
  {
    var slice := if mark == -1 then [] else data[mark..p];
    var m := if mark == -1 then p else mark;
    assert data[m..p + n] == slice + data[p..p + n];
    Associate(got, slice, data[p..p + n]);
    Associate(was, body, data[p..p + n]);
  }

  lemma Associate(a: Bytes, b: Bytes, c: Bytes)
    ensures a + (b + c) == a + b + c
  {}

  lemma PendingSlice(was: Bytes, body: Bytes, got: Bytes, data: Bytes, mark: int, p: nat)
    requires Pending(was, body, got, data, mark, p)
    ensures was <= got <= was + body
    ensures mark == -1 ==> got == was + body
    ensures mark != -1 ==> 0 <= mark <= p <= |data| && got + data[mark..p] == was + body
  {
    var slice := if mark == -1 then [] else data[mark..p];
    assert got == (got + slice)[..|got|];
    assert got + [] == got;
  }

  lemma PendingNone(was: Bytes, body: Bytes, got: Bytes, data: Bytes, p: nat)
    requires got == was + body && p <= |data|
    ensures Pending(was, body, got, data, -1, p)
  {
    assert got + [] == got;
  }

  // ---- a body that comes in several reads ----

  function Flatten(parts: seq<Bytes>): Bytes {
    if parts == [] then [] else Flatten(parts[..|parts| - 1]) + parts[|parts| - 1]
  }

  /** The reads of a message behind its headers: what the request has got does not depend on how
      the bytes are divided over the reads, and a body of a given length ends up in its buffer. */
  method Receive(parser: Parser, ar: Request, parts: seq<Bytes>)
    requires HttpBody.Valid(parser.St()) && !Ended(parser.state) && ar.Valid() && ar.got == []
    requires ar.len > 0 ==> parser.state.BodyIdentity? && parser.contentLength == ar.len
    modifies parser, ar`got, ar.buf
    ensures var f := Feed(old(parser.St()), Flatten(parts));
            && parser.St() == f.st
            && (parser.state.Error? ==> ar.got <= f.body)
            && (!parser.state.Error? ==> ar.got == f.body)
            && (parser.state.MessageDone? && ar.len > 0 ==> (ar.buf != null && ar.buf[..] == f.body))
    ensures old(parser.state).BodyIdentity? && old(parser.contentLength) <= |Flatten(parts)| ==>
              parser.state.MessageDone? && ar.got == Flatten(parts)[..old(parser.contentLength)]
    ensures old(parser.St()) == START ==>
              forall cs, last :: IsMessage(cs, last) && EncodeChunks(cs) + SizeLine(last) <= Flatten(parts) ==>
                parser.state.Trailer? && ar.got == Data(cs)
  {
    hide Feed, IsMessage, EncodeChunks, SizeLine, Data;
    var i := 0;
    ghost var st := parser.St();
    FeedNothing(st);
    while i < |parts| && !Ended(parser.state)
      invariant i <= |parts| && HttpBody.Valid(parser.St()) && ar.Valid()
      invariant var f := Feed(st, Flatten(parts[..i]));
                && parser.St() == f.st
                && (parser.state.Error? ==> ar.got <= f.body)
                && (!parser.state.Error? ==> ar.got == f.body)
      invariant ar.len > 0 ==> (parser.state.BodyIdentity? || parser.state.MessageDone?) && |ar.got| + parser.contentLength == ar.len
      decreases |parts| - i
    {
      FeedConcat(st, Flatten(parts[..i]), parts[i]);
      assert parts[..i + 1][..i] == parts[..i];
      var _ := parser.Execute(parts[i], ar);
      i := i + 1;
    }
    FeedTheRest(st, parts, i);
    Whole(st, Flatten(parts));
    assert ar.len > 0 && parser.state.MessageDone? ==> ar.buf[..ar.len] == ar.buf[..];
  }

  /** What the bytes of a whole message lead to. */
  lemma Whole(st: State, b: Bytes)
    requires HttpBody.Valid(st)
    ensures st.phase.BodyIdentity? && st.left <= |b| ==>
              Feed(st, b).st.phase == MessageDone && Feed(st, b).body == b[..st.left]
    ensures st == START ==>
              forall cs, last :: IsMessage(cs, last) && EncodeChunks(cs) + SizeLine(last) <= b ==>
                Feed(st, b).st.phase == Trailer && Feed(st, b).body == Data(cs)
  {
    hide Feed, IsMessage, EncodeChunks, SizeLine, Data;
    if st.phase.BodyIdentity? && st.left <= |b| {
      IdentityBody(st, b[..st.left], b[st.left..]);
      assert b == b[..st.left] + b[st.left..];
    }
    if st == START {
      forall cs, last | IsMessage(cs, last) && EncodeChunks(cs) + SizeLine(last) <= b
        ensures Feed(st, b).st.phase == Trailer && Feed(st, b).body == Data(cs)
      {
        var front := EncodeChunks(cs) + SizeLine(last);
        ChunkedBody(cs, last, b[|front|..]);
        assert b == front + b[|front|..];
      }
    }
  }

  lemma FeedNothing(st: State)
    requires HttpBody.Valid(st)
    ensures Feed(st, []) == Fed(st, [], 0)
  {}

  lemma {:induction false} FeedTheRest(st: State, parts: seq<Bytes>, i: nat)
    requires HttpBody.Valid(st) && i <= |parts|
    requires i < |parts| ==> Ended(Feed(st, Flatten(parts[..i])).st.phase)
    ensures Feed(st, Flatten(parts)) == Feed(st, Flatten(parts[..i]))
    decreases |parts|
  {
    hide Feed;
    if i == |parts| {
      assert parts[..i] == parts;
    } else {
      var n := |parts| - 1;
      assert parts[..n][..i] == parts[..i];
      FeedTheRest(st, parts[..n], i);
      FeedConcat(st, Flatten(parts[..n]), parts[n]);
    }
  }
}
