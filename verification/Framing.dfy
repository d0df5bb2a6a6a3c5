/** Length-prefixed frames: the wire format of SendPackage and the parser that cuts a byte
    stream back into packages. */
module Framing {
  import opened Bytes

  const HEAD_SIZE := 4
  const BUFFER_SIZE := 102400

  /** A payload whose frame fits an empty write buffer. */
  type Payload = p: seq<byte> | |p| <= BUFFER_SIZE - HEAD_SIZE witness []

  function Frame(p: Payload): (f: seq<byte>) {
    EncodeInt32(|p|) + p
  }

  function Stream(ps: seq<Payload>): seq<byte> {
    if ps == [] then [] else Frame(ps[0]) + Stream(ps[1..])
  }

  /** The packages cut off the front of a buffer and the number of bytes they took. A
      negative length makes the allocation of the package throw. */
  datatype Parsed = Parsed(packages: seq<seq<byte>>, used: nat, threw: bool)

  /** A whole frame lies at the front of s and the parser's test lets it through. */
  predicate HasFrame(s: seq<byte>) {
    |s| > HEAD_SIZE && 0 <= DecodeInt32(s[..HEAD_SIZE]) <= |s| - HEAD_SIZE
  }

  function FrameEnd(s: seq<byte>): (n: int)
    requires HasFrame(s)
    ensures HEAD_SIZE <= n <= |s|
  {
    HEAD_SIZE + DecodeInt32(s[..HEAD_SIZE])
  }

  function FirstCut(s: seq<byte>): Parsed
    requires HasFrame(s)
  {
    Parsed([s[HEAD_SIZE..FrameEnd(s)]], FrameEnd(s), false)
  }

  /** The result of a followed by the result r of parsing what a left plus later bytes. */
  function Then(a: Parsed, r: Parsed): Parsed {
    Parsed(a.packages + r.packages, a.used + r.used, r.threw)
  }

  function Parse(s: seq<byte>): (r: Parsed)
    ensures r.used <= |s|
  {
    if HasFrame(s) then Then(FirstCut(s), Parse(s[FrameEnd(s)..]))
    else Parsed([], 0, |s| > HEAD_SIZE && DecodeInt32(s[..HEAD_SIZE]) < 0)
  }

  /** No package can be cut off yet. */
  predicate Stuck(s: seq<byte>) {
    Parse(s) == Parsed([], 0, false)
  }

  function Rest(s: seq<byte>): seq<byte> {
    s[Parse(s).used..]
  }

  lemma ShortIsStuck(s: seq<byte>)
    requires |s| <= HEAD_SIZE
    ensures Stuck(s)
  {
  }

  lemma {:induction false} RestIsStuck(s: seq<byte>)
    requires !Parse(s).threw
    ensures Stuck(Rest(s))
  {
    hide DecodeInt32;
    ParseCut(s);
    if HasFrame(s) {
      RestIsStuck(s[FrameEnd(s)..]);
    }
  }

  /** A negative length makes the parser throw at once; one that reaches beyond the bytes at
      hand makes it wait. */
  lemma OtherLengths(s: seq<byte>, n: int32)
    requires |s| > HEAD_SIZE && s[..HEAD_SIZE] == EncodeInt32(n)
    ensures n < 0 ==> Parse(s) == Parsed([], 0, true)
    ensures n > |s| - HEAD_SIZE ==> Parse(s) == Parsed([], 0, false)
  {
    hide EncodeInt32, DecodeInt32;
    DecodeEncodeInt32(n);
  }

  lemma ThenAssociative(a: Parsed, b: Parsed, c: Parsed)
    ensures Then(Then(a, b), c) == Then(a, Then(b, c))
  {
    assert a.packages + b.packages + c.packages == a.packages + (b.packages + c.packages);
  }

  lemma ParseCut(s: seq<byte>)
    ensures HasFrame(s) ==> Parse(s) == Then(FirstCut(s), Parse(s[FrameEnd(s)..])) && Rest(s) == Rest(s[FrameEnd(s)..])
    ensures !HasFrame(s) ==> Parse(s).packages == [] && Parse(s).used == 0 && Rest(s) == s
  {
  }

  lemma FrameStays(a: seq<byte>, b: seq<byte>)
    requires HasFrame(a)
    ensures HasFrame(a + b) && FirstCut(a + b) == FirstCut(a)
    ensures (a + b)[FrameEnd(a)..] == a[FrameEnd(a)..] + b
  {
    assert (a + b)[..HEAD_SIZE] == a[..HEAD_SIZE];
    assert (a + b)[HEAD_SIZE..FrameEnd(a)] == a[HEAD_SIZE..FrameEnd(a)];
  }

  /** Parsing a, compacting, and parsing the remainder with more bytes b behind it is
      parsing a + b at once. */
  lemma {:induction false} ChunkingIndependence(a: seq<byte>, b: seq<byte>)
    requires !Parse(a).threw
    ensures Parse(a + b) == Then(Parse(a), Parse(Rest(a) + b))
    ensures Rest(a + b) == Rest(Rest(a) + b)
    decreases |a|
  {
    ParseCut(a);
    ParseCut(a + b);
    if HasFrame(a) {
      var tail := a[FrameEnd(a)..];
      FrameStays(a, b);
      ChunkingIndependence(tail, b);
      ThenAssociative(FirstCut(a), Parse(tail), Parse(Rest(a) + b));
    }
  }

  /** The receiver fed chunk by chunk, compacting in between. */
  function ParseChunks(rest: seq<byte>, chunks: seq<seq<byte>>): Parsed
    decreases |chunks|
  {
    if chunks == [] then Parse(rest)
    else
      var buffer := rest + chunks[0];
      var r := Parse(buffer);
      if r.threw then r else Then(r, ParseChunks(Rest(buffer), chunks[1..]))
  }

  /** However the bytes are cut into chunks, the packages, the bytes counted and the
      remainder are those of one pass over all of them. */
  lemma {:induction false} AnyChunking(rest: seq<byte>, chunks: seq<seq<byte>>)
    requires !Parse(rest + Concat(chunks)).threw
    ensures ParseChunks(rest, chunks) == Parse(rest + Concat(chunks))
    decreases |chunks|
  {
    if chunks == [] {
      assert rest + [] == rest;
    } else {
      var buffer := rest + chunks[0];
      var later := Concat(chunks[1..]);
      assert rest + Concat(chunks) == buffer + later;
      PrefixDoesNotThrow(buffer, later);
      ChunkingIndependence(buffer, later);
      AnyChunking(Rest(buffer), chunks[1..]);
    }
  }

  lemma {:induction false} PrefixDoesNotThrow(a: seq<byte>, b: seq<byte>)
    requires !Parse(a + b).threw
    ensures !Parse(a).threw
    decreases |a|
  {
    hide DecodeInt32;
    if HasFrame(a) {
      FrameStays(a, b);
      PrefixDoesNotThrow(a[FrameEnd(a)..], b);
    } else if |a| > HEAD_SIZE {
      assert (a + b)[..HEAD_SIZE] == a[..HEAD_SIZE];
    }
  }

  lemma FrameShape(p: Payload)
    ensures |Frame(p)| == HEAD_SIZE + |p| <= BUFFER_SIZE
    ensures Frame(p)[..HEAD_SIZE] == EncodeInt32(|p|)
    ensures DecodeInt32(EncodeInt32(|p|)) == |p|
    ensures Frame(p)[HEAD_SIZE..] == p
  {
    DecodeEncodeInt32(|p|);
  }

  lemma {:induction false} StreamAppend(ps: seq<Payload>, p: Payload)
    ensures Stream(ps + [p]) == Stream(ps) + Frame(p)
  {
    if ps == [] {
      assert ps + [p] == [p];
      assert Stream([p]) == Frame(p) + Stream([]) == Frame(p);
    } else {
      assert (ps + [p])[1..] == ps[1..] + [p];
      StreamAppend(ps[1..], p);
    }
  }

  /** What a parser finds at the front of an arrived part q of a stream: the whole first frame,
      or a part of it that it leaves alone. */
  lemma FirstArrived(ps: seq<Payload>, q: seq<byte>)
    requires q <= Stream(ps) && |q| > HEAD_SIZE
    ensures ps != []
    ensures HasFrame(q) <==> |q| >= |Frame(ps[0])|
    ensures HasFrame(q) ==> FirstCut(q) == Parsed([ps[0]], |Frame(ps[0])|, false) && q[FrameEnd(q)..] <= Stream(ps[1..])
    ensures !HasFrame(q) ==> DecodeInt32(q[..HEAD_SIZE]) >= 0
  {
    hide DecodeInt32, EncodeInt32;
    FrameShape(ps[0]);
    var f := Frame(ps[0]);
    assert q[..HEAD_SIZE] == Stream(ps)[..HEAD_SIZE] == f[..HEAD_SIZE];
    if |q| >= |f| {
      assert q[HEAD_SIZE..|f|] == Stream(ps)[HEAD_SIZE..|f|] == f[HEAD_SIZE..] == ps[0];
      assert Stream(ps)[|f|..] == Stream(ps[1..]);
    }
  }

  /** Whatever part of a stream of frames has arrived, the packages cut from it are the
      first payloads in order, and what remains is shorter than the buffer. */
  lemma {:induction false} ParseArrived(ps: seq<Payload>, q: seq<byte>)
    requires q <= Stream(ps)
    ensures !Parse(q).threw
    ensures Parse(q).packages <= ps
    ensures |Rest(q)| < BUFFER_SIZE
  {
    hide DecodeInt32, Stream, Frame;
    ParseCut(q);
    if |q| > HEAD_SIZE {
      FirstArrived(ps, q);
      FrameShape(ps[0]);
      if HasFrame(q) {
        ParseArrived(ps[1..], q[FrameEnd(q)..]);
        assert ps == [ps[0]] + ps[1..];
      }
    }
  }

  /** The payloads that come out once the whole stream has arrived: a last payload of
      length zero is held back, because the parser wants one byte past the head. */
  function Complete(ps: seq<Payload>): seq<Payload> {
    if ps != [] && ps[|ps| - 1] == [] then ps[..|ps| - 1] else ps
  }

  lemma StreamSize(ps: seq<Payload>)
    ensures ps == [] ==> |Stream(ps)| == 0
    ensures ps != [] ==> |Stream(ps)| == |Frame(ps[0])| + |Stream(ps[1..])|
  {
    hide Frame;
  }

  lemma {:induction false} ParseWhole(ps: seq<Payload>)
    ensures Parse(Stream(ps)).packages == Complete(ps)
  {
    hide DecodeInt32, Stream, Frame;
    var s := Stream(ps);
    StreamSize(ps);
    ParseCut(s);
    if ps != [] {
      FrameShape(ps[0]);
      StreamSize(ps[1..]);
      if |ps| > 1 {
        FrameShape(ps[1]);
        assert Complete(ps) == [ps[0]] + Complete(ps[1..]);
      }
      if |s| > HEAD_SIZE {
        FirstArrived(ps, s);
        ParseWhole(ps[1..]);
        assert s[FrameEnd(s)..] == Stream(ps[1..]);
        assert |ps| == 1 ==> Complete(ps) == [ps[0]] + Complete(ps[1..]);
      }
    }
  }

  /** Parsing the stretch of d from offset to size, said with the addresses the loop uses. */
  lemma CutInPlace(d: seq<byte>, offset: nat, size: nat)
    requires offset + HEAD_SIZE < size <= |d|
    ensures var n := DecodeInt32(d[offset..offset + HEAD_SIZE]);
      Parse(d[offset..size]) ==
        if size < offset + HEAD_SIZE + n then Parsed([], 0, false)
        else if n < 0 then Parsed([], 0, true)
        else Then(Parsed([d[HEAD_SIZE + offset..HEAD_SIZE + offset + n]], HEAD_SIZE + n, false),
                  Parse(d[offset + HEAD_SIZE + n..size]))
  {
    hide DecodeInt32;
    var left := d[offset..size];
    SliceOfSlice(d, offset, size, 0, HEAD_SIZE);
    ParseCut(left);
    if HasFrame(left) {
      var n := FrameEnd(left);
      SliceOfSlice(d, offset, size, HEAD_SIZE, n);
      SliceOfSlice(d, offset, size, n, |left|);
    }
  }

  /** The frame SendPackage hands to Write. */
  method BuildFrame(data: array<byte>) returns (frame: array<byte>)
    requires data.Length <= INT_MAX - HEAD_SIZE
    ensures fresh(frame) && frame[..] == EncodeInt32(data.Length) + data[..]
  {
    frame := new byte[HEAD_SIZE + data.Length];
    MemCopy(frame, 0, EncodeInt32(data.Length));
    MemCopy(frame, HEAD_SIZE, data[..]);
  }

  /** The parser's loop over the first size bytes of the read buffer. The counters are the
      increments to the received-package and received-byte totals. */
  method ReadCallback(data: array<byte>, size: nat)
    returns (packages: seq<seq<byte>>, offset: nat, packageCount: nat, byteCount: nat, threw: bool)
    requires size <= data.Length
    ensures Parsed(packages, offset, threw) == Parse(data[..size])
    ensures packageCount == |packages| && byteCount == offset
  {
    hide DecodeInt32, Parse;
    packages, offset, packageCount, byteCount, threw := [], 0, 0, 0, false;
    ghost var d := data[..];
    ghost var whole := Parse(d[..size]);
    assert d[..size] == data[..size] && d[0..size] == d[..size];
    while size > HEAD_SIZE + offset
      invariant offset <= size && !threw
      invariant whole == Then(Parsed(packages, offset, false), Parse(d[offset..size]))
      invariant packageCount == |packages| && byteCount == offset
    {
      CutInPlace(d, offset, size);
      var head := data[offset..offset + HEAD_SIZE];
      assert head == d[offset..offset + HEAD_SIZE];
      var n := DecodeInt32(head);
      if size < offset + HEAD_SIZE + n {
        break;
      }
      if n < 0 {
        threw := true;
        break;
      }
      var package := data[HEAD_SIZE + offset..HEAD_SIZE + offset + n];
      assert package == d[HEAD_SIZE + offset..HEAD_SIZE + offset + n];
      ThenAssociative(Parsed(packages, offset, false), Parsed([package], HEAD_SIZE + n, false),
                      Parse(d[offset + HEAD_SIZE + n..size]));
      packages := packages + [package];
      offset := offset + (HEAD_SIZE + n);
      packageCount := packageCount + 1;
      byteCount := byteCount + HEAD_SIZE + n;
    }
    if size <= HEAD_SIZE + offset {
      ShortIsStuck(d[offset..size]);
    }
  }
}
