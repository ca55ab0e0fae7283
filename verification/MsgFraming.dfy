/** Length-prefixed framing of messages on a byte stream. */
module MsgFraming {
  import opened Common

  type byte = x: int | 0 <= x < 256

  /** The settings of a parser. */
  datatype Settings = Settings(lenMsgLen: int, minMsgLen: uint32, maxMsgLen: uint32, littleEndian: bool)

  /** The largest length a header of the given width can hold. */
  function HeaderMax(lenMsgLen: int): (max: uint32)
    ensures max >= 1
  {
    if lenMsgLen == 1 then 0xff else if lenMsgLen == 2 then 0xffff else 0xffff_ffff
  }

  /** What the constructor and the setters keep. */
  predicate Reachable(p: Settings) {
    && p.lenMsgLen in {1, 2, 4}
    && 1 <= p.minMsgLen <= HeaderMax(p.lenMsgLen)
    && 1 <= p.maxMsgLen <= HeaderMax(p.lenMsgLen)
  }

  /** Exactly the widths 1, 2 and 4, and limits from 1 to what the header can hold. */
  lemma ReachableMeans(p: Settings)
    ensures Reachable(p) <==>
      && (p.lenMsgLen == 1 || p.lenMsgLen == 2 || p.lenMsgLen == 4)
      && var max := if p.lenMsgLen == 1 then 255 else if p.lenMsgLen == 2 then 65535 else 4294967295;
      1 <= p.minMsgLen <= max && 1 <= p.maxMsgLen <= max
  {
  }

  // ---------------------------------------------------------------- headers

  function Reverse(s: seq<byte>): (r: seq<byte>)
    ensures |r| == |s| && forall i :: 0 <= i < |s| ==> r[i] == s[|s| - 1 - i]
  {
    if s == [] then [] else Reverse(s[1..]) + [s[0]]
  }

  /** `n` in base 256, least significant byte first. */
  function LittleBytes(n: nat, width: nat): (s: seq<byte>)
    ensures |s| == width
  {
    if width == 0 then [] else [n % 256] + LittleBytes(n / 256, width - 1)
  }

  function LittleValue(s: seq<byte>): nat {
    if s == [] then 0 else s[0] + 256 * LittleValue(s[1..])
  }

  function Pow256(k: nat): nat {
    if k == 0 then 1 else 256 * Pow256(k - 1)
  }

  lemma {:induction false} LittleRoundTrip(n: nat, width: nat)
    requires n < Pow256(width)
    ensures LittleValue(LittleBytes(n, width)) == n
  {
    if width > 0 {
      LittleRoundTrip(n / 256, width - 1);
    }
  }

  lemma {:induction false} ReverseTwice(s: seq<byte>)
    ensures Reverse(Reverse(s)) == s
  {
  }

  /** The header of a message of length `n`. */
  function Header(p: Settings, n: nat): (h: seq<byte>)
    requires p.lenMsgLen in {1, 2, 4}
    ensures |h| == p.lenMsgLen
  {
    if p.littleEndian then LittleBytes(n, p.lenMsgLen) else Reverse(LittleBytes(n, p.lenMsgLen))
  }

  function HeaderValue(p: Settings, h: seq<byte>): nat {
    if p.littleEndian then LittleValue(h) else LittleValue(Reverse(h))
  }

  lemma HeaderRoundTrip(p: Settings, n: nat)
    requires Reachable(p) && n <= HeaderMax(p.lenMsgLen)
    ensures HeaderValue(p, Header(p, n)) == n
  {
    assert Pow256(1) == 256;
    assert Pow256(2) == 0x1_0000;
    assert Pow256(3) == 0x100_0000;
    assert Pow256(4) == WRAP;
    LittleRoundTrip(n, p.lenMsgLen);
    ReverseTwice(LittleBytes(n, p.lenMsgLen));
  }

  /** The largest lengths, and the bytes of a header in either order. */
  lemma HeaderBytes(p: Settings, n: nat)
    requires Reachable(p) && n <= HeaderMax(p.lenMsgLen)
    ensures HeaderMax(1) == 255 && HeaderMax(2) == 65535 && HeaderMax(4) == 4294967295
    ensures p.lenMsgLen == 1 ==> Header(p, n) == [n]
    ensures p.lenMsgLen == 2 ==>
      Header(p, n) == if p.littleEndian then [n % 256, n / 256] else [n / 256, n % 256]
    ensures p.lenMsgLen == 4 ==>
      var a, b, c, d := n / 256 / 256 / 256, n / 256 / 256 % 256, n / 256 % 256, n % 256;
      a < 256 && Header(p, n) == if p.littleEndian then [d, c, b, a] else [a, b, c, d]
  {
    hide LittleBytes, Reverse;
    FewBytes(n);
    ByteBounds(n);
    ReverseFew(LittleBytes(n, p.lenMsgLen));
  }

  lemma ByteBounds(n: nat)
    ensures n < 256 ==> n % 256 == n
    ensures n < 65536 ==> n / 256 % 256 == n / 256
    ensures n < WRAP ==> n / 256 / 256 / 256 < 256 && n / 256 / 256 / 256 % 256 == n / 256 / 256 / 256
  {
    var a := n / 256;
    var b := a / 256;
    assert n < WRAP ==> a < 0x100_0000;
    assert n < WRAP ==> b < 0x1_0000;
    assert n < WRAP ==> b / 256 < 256;
  }

  lemma FewBytes(n: nat)
    ensures LittleBytes(n, 1) == [n % 256] && LittleBytes(n, 2) == [n % 256, n / 256 % 256]
    ensures LittleBytes(n, 4) == [n % 256, n / 256 % 256, n / 256 / 256 % 256, n / 256 / 256 / 256 % 256]
  {
    var a, b, c := n / 256, n / 256 / 256, n / 256 / 256 / 256;
    assert LittleBytes(c, 1) == [c % 256];
    assert LittleBytes(b, 2) == [b % 256] + LittleBytes(c, 1);
    assert LittleBytes(a, 3) == [a % 256] + LittleBytes(b, 2);
    assert LittleBytes(n, 4) == [n % 256] + LittleBytes(a, 3);
    assert LittleBytes(a, 1) == [a % 256] && LittleBytes(n, 2) == [n % 256] + LittleBytes(a, 1);
    assert LittleBytes(n, 1) == [n % 256];
  }

  lemma ReverseFew(s: seq<byte>)
    ensures |s| == 1 ==> Reverse(s) == s
    ensures |s| == 2 ==> Reverse(s) == [s[1], s[0]]
    ensures |s| == 4 ==> Reverse(s) == [s[3], s[2], s[1], s[0]]
  {
    hide Reverse;
    var r := Reverse(s);
    if |s| == 2 {
      assert r[0] == s[1] && r[1] == s[0];
    } else if |s| == 4 {
      assert r[0] == s[3] && r[1] == s[2];
      assert r[2] == s[1] && r[3] == s[0];
    } else if |s| == 1 {
      assert r[0] == s[0];
    }
  }

  /** Every sequence of bytes as long as a header is the header of the length it reads as. */
  lemma HeaderOnto(p: Settings, h: seq<byte>)
    requires Reachable(p) && |h| == p.lenMsgLen
    ensures HeaderValue(p, h) <= HeaderMax(p.lenMsgLen) && Header(p, HeaderValue(p, h)) == h
  {
    assert Pow256(1) == 256;
    assert Pow256(2) == 0x1_0000;
    assert Pow256(3) == 0x100_0000;
    assert Pow256(4) == WRAP;
    LittleOnto(h);
    LittleOnto(Reverse(h));
    ReverseTwice(h);
    hide LittleBytes, LittleValue, Reverse, Pow256;
  }

  lemma {:induction false} LittleOnto(s: seq<byte>)
    ensures LittleValue(s) < Pow256(|s|) && LittleBytes(LittleValue(s), |s|) == s
  {
    if s != [] {
      LittleOnto(s[1..]);
      LowByte(s[0], LittleValue(s[1..]));
      assert [s[0]] + s[1..] == s;
    }
  }

  lemma LowByte(low: byte, high: nat)
    ensures (low + 256 * high) % 256 == low && (low + 256 * high) / 256 == high
  {
  }

  // ---------------------------------------------------------------- frames and streams

  type Message = seq<byte>

  predicate Fits(p: Settings, msg: Message) {
    p.minMsgLen <= |msg| <= p.maxMsgLen
  }

  predicate AllFit(p: Settings, msgs: seq<Message>) {
    forall i :: 0 <= i < |msgs| ==> Fits(p, msgs[i])
  }

  function Frame(p: Settings, msg: Message): (f: seq<byte>)
    requires p.lenMsgLen in {1, 2, 4}
    ensures |f| == p.lenMsgLen + |msg|
  {
    Header(p, |msg|) + msg
  }

  function Stream(p: Settings, msgs: seq<Message>): seq<byte>
    requires p.lenMsgLen in {1, 2, 4}
  {
    if msgs == [] then [] else Frame(p, msgs[0]) + Stream(p, msgs[1..])
  }

  datatype Decoded = Msg(data: Message, rest: seq<byte>) | EndOfInput | TooLong | TooShort

  /** One read from a stream that ends after `input`. */
  function DecodeOne(p: Settings, input: seq<byte>): (d: Decoded)
    requires p.lenMsgLen in {1, 2, 4}
    ensures d.Msg? ==> |d.rest| < |input|
  {
    if |input| < p.lenMsgLen then EndOfInput
    else
      var n := HeaderValue(p, input[..p.lenMsgLen]);
      if n > p.maxMsgLen then TooLong
      else if n < p.minMsgLen then TooShort
      else if |input| < p.lenMsgLen + n then EndOfInput
      else Msg(input[p.lenMsgLen..p.lenMsgLen + n], input[p.lenMsgLen + n..])
  }

  /** A stream shorter than a header is at its end, and what is returned as a message has a length within the limits. */
  lemma DecodeLimits(p: Settings, input: seq<byte>)
    requires Reachable(p)
    ensures |input| < p.lenMsgLen ==> DecodeOne(p, input) == EndOfInput
    ensures var d := DecodeOne(p, input); d.Msg? ==> p.minMsgLen <= |d.data| <= p.maxMsgLen
  {
  }

  /** The answer to every header: refused when too long, else when too short; else as many bytes as it says. */
  lemma DecodeAnswers(p: Settings, n: nat, rest: seq<byte>)
    requires Reachable(p) && n <= HeaderMax(p.lenMsgLen)
    ensures DecodeOne(p, Header(p, n) + rest) ==
      if n > p.maxMsgLen then TooLong
      else if n < p.minMsgLen then TooShort
      else if |rest| < n then EndOfInput
      else Msg(rest[..n], rest[n..])
  {
    hide Header, HeaderValue, HeaderMax;
    HeaderRoundTrip(p, n);
    var h := Header(p, n);
    var input := h + rest;
    assert input[..|h|] == h;
    if n <= |rest| {
      assert input[|h|..|h| + n] == rest[..n] && input[|h| + n..] == rest[n..];
    }
  }

  /** Reads until something other than a message comes back: the messages, and what ended them. */
  function DecodeAll(p: Settings, input: seq<byte>): (seq<Message>, Decoded)
    requires p.lenMsgLen in {1, 2, 4}
    decreases |input|
  {
    var d := DecodeOne(p, input);
    if d.Msg? then
      var (msgs, end) := DecodeAll(p, d.rest);
      ([d.data] + msgs, end)
    else ([], d)
  }

  /** How many frames lie completely within the first `k` bytes of the stream of `msgs`. */
  function Complete(p: Settings, msgs: seq<Message>, k: nat): (n: nat)
    requires p.lenMsgLen in {1, 2, 4}
    ensures n <= |msgs|
  {
    if msgs == [] || k < |Frame(p, msgs[0])| then 0
    else 1 + Complete(p, msgs[1..], k - |Frame(p, msgs[0])|)
  }

  lemma SliceTwice(s: seq<byte>, a: nat, n: nat)
    requires a <= |s|
    ensures a + n <= |s| ==> s[a..][..n] == s[a..a + n] && s[a..][n..] == s[a + n..]
  {
  }

  /** The parts of a header, a message and what follows that lie within the first `k` bytes. */
  lemma CutParts(h: seq<byte>, m: seq<byte>, rest: seq<byte>, k: nat)
    requires k <= |h + m + rest|
    ensures var input := (h + m + rest)[..k];
      && (|h| <= k ==> input[..|h|] == h)
      && (|h| + |m| <= k ==> input[|h|..|h| + |m|] == m && input[|h| + |m|..] == rest[..k - |h| - |m|])
  {
  }

  /** Reading from a stream that starts with part of a frame waits for the rest; with a whole frame, returns it. */
  lemma DecodeFrame(p: Settings, msg: Message, rest: seq<byte>, k: nat)
    requires Reachable(p) && Fits(p, msg) && k <= |Frame(p, msg) + rest|
    ensures var input := (Frame(p, msg) + rest)[..k];
      DecodeOne(p, input) ==
        if k < |Frame(p, msg)| then EndOfInput else Msg(msg, rest[..k - |Frame(p, msg)|])
  {
    hide Header, HeaderValue, HeaderMax;
    HeaderRoundTrip(p, |msg|);
    CutParts(Header(p, |msg|), msg, rest, k);
  }

  /**
   Framing is a stream codec: reading any byte prefix of the frames of `msgs` returns exactly the
   messages whose frames are complete in it, then end of input, and never misreads.
   */
  lemma {:induction false} DecodePrefix(p: Settings, msgs: seq<Message>, k: nat)
    requires Reachable(p) && AllFit(p, msgs) && k <= |Stream(p, msgs)|
    ensures DecodeAll(p, Stream(p, msgs)[..k]) == (msgs[..Complete(p, msgs, k)], EndOfInput)
  {
    hide DecodeOne, Frame, HeaderMax, Fits;
    if msgs == [] {
      DecodeEmpty(p);
    } else {
      var size := |Frame(p, msgs[0])|;
      DecodeFrame(p, msgs[0], Stream(p, msgs[1..]), k);
      if k >= size {
        DecodePrefix(p, msgs[1..], k - size);
        PrefixCons(msgs, Complete(p, msgs[1..], k - size));
      }
    }
  }

  lemma DecodeEmpty(p: Settings)
    requires Reachable(p)
    ensures DecodeOne(p, []) == EndOfInput
  {
  }

  lemma PrefixCons(msgs: seq<Message>, n: nat)
    requires msgs != [] && n < |msgs|
    ensures [msgs[0]] + msgs[1..][..n] == msgs[..1 + n]
  {
  }

  lemma {:induction false} CompleteAll(p: Settings, msgs: seq<Message>)
    requires p.lenMsgLen in {1, 2, 4}
    ensures Complete(p, msgs, |Stream(p, msgs)|) == |msgs|
  {
    if msgs != [] {
      CompleteAll(p, msgs[1..]);
    }
  }

  /** Round trip: reading all the frames returns all the messages. */
  lemma DecodeStream(p: Settings, msgs: seq<Message>)
    requires Reachable(p) && AllFit(p, msgs)
    ensures DecodeAll(p, Stream(p, msgs)) == (msgs, EndOfInput)
  {
    var s := Stream(p, msgs);
    DecodePrefix(p, msgs, |s|);
    CompleteAll(p, msgs);
    assert s[..|s|] == s && msgs[..|msgs|] == msgs;
  }

  // ---------------------------------------------------------------- the parser

  function Concat(args: seq<seq<byte>>): seq<byte> {
    if args == [] then [] else Concat(args[..|args| - 1]) + args[|args| - 1]
  }

  lemma {:induction false} ConcatGrows(args: seq<seq<byte>>, i: nat, j: nat)
    requires i <= j <= |args|
    ensures |Concat(args[..i])| <= |Concat(args[..j])|
  {
    if i < j {
      ConcatGrows(args, i, j - 1);
      assert args[..j][..j - 1] == args[..j - 1];
    }
  }

  lemma ConcatSnoc(a: seq<seq<byte>>, x: seq<byte>)
    ensures Concat(a + [x]) == Concat(a) + x
  {
    assert (a + [x])[..|a|] == a;
  }

  lemma {:induction false} ConcatAppend(a: seq<seq<byte>>, b: seq<seq<byte>>)
    ensures Concat(a + b) == Concat(a) + Concat(b)
  {
    if b == [] {
      assert a + b == a;
    } else {
      var init, last := b[..|b| - 1], b[|b| - 1];
      ConcatAppend(a, init);
      hide Concat;
      ConcatSnoc(init, last);
      ConcatSnoc(a + init, last);
      assert b == init + [last] && a + b == a + init + [last];
      assert Concat(a) + Concat(init) + last == Concat(a) + (Concat(init) + last);
    }
  }

  datatype Outcome = Sent(frame: seq<byte>) | RefusedTooLong | RefusedTooShort | Panicked

  /** What writing a message is meant to do. */
  function Intended(p: Settings, msg: Message): Outcome
    requires p.lenMsgLen in {1, 2, 4}
  {
    if |msg| > p.maxMsgLen then RefusedTooLong
    else if |msg| < p.minMsgLen then RefusedTooShort
    else Sent(Frame(p, msg))
  }

  /**
   Lengths for which 32-bit arithmetic does no harm: header and message fit together, or the
   length, reduced or not, is refused all the same.
   */
  predicate Exact(p: Settings, total: nat) {
    p.lenMsgLen + total < WRAP || total % WRAP > p.maxMsgLen || total < p.minMsgLen
  }

  /** What precedes the last piece. */
  function BeforeLast(args: seq<seq<byte>>): seq<byte> {
    if args == [] then [] else Concat(args[..|args| - 1])
  }

  /**
   What writing does for every split of every length: the length counts modulo 2^32; a buffer too
   short for its header, or a piece that starts behind its end, panics; what does not fit is cut off.
   */
  function Written(p: Settings, args: seq<seq<byte>>): Outcome
    requires p.lenMsgLen in {1, 2, 4}
  {
    var n := |Concat(args)| % WRAP;
    if n > p.maxMsgLen then RefusedTooLong
    else if n < p.minMsgLen then RefusedTooShort
    else if p.lenMsgLen + n >= WRAP || |BeforeLast(args)| > n then Panicked
    else Sent(Frame(p, Concat(args)[..n]))
  }

  /** Writing does what it is meant to do if and only if the length is exact. */
  lemma WrittenAsIntended(p: Settings, args: seq<seq<byte>>)
    requires Reachable(p)
    ensures Written(p, args) == Intended(p, Concat(args)) <==> Exact(p, |Concat(args)|)
  {
    hide Frame, HeaderMax;
    var total := |Concat(args)|;
    BeforeLastFits(args);
    if total < WRAP {
      assert Concat(args)[..total] == Concat(args);
    }
  }

  /** Below 2^32 - 4 bytes a message is sent, behind its header, exactly when its length is within the limits. */
  lemma WrittenShort(p: Settings, args: seq<seq<byte>>)
    requires Reachable(p) && |Concat(args)| + 4 < WRAP
    ensures var r, n := Written(p, args), |Concat(args)|;
      && (r.RefusedTooLong? <==> n > p.maxMsgLen) && (r.RefusedTooShort? <==> n <= p.maxMsgLen && n < p.minMsgLen)
      && (r.Sent? <==> p.minMsgLen <= n <= p.maxMsgLen)
      && (r.Sent? ==> r.frame == Header(p, n) + Concat(args))
  {
    hide Header, HeaderMax, Concat, BeforeLast;
    BeforeLastFits(args);
    var n := |Concat(args)|;
    assert n % WRAP == n && Concat(args)[..n] == Concat(args);
  }

  lemma BeforeLastFits(args: seq<seq<byte>>)
    ensures |BeforeLast(args)| <= |Concat(args)|
  {
  }

  /** Whatever the lengths, what is sent is the frame of a message within the limits. */
  lemma WrittenIsFrame(p: Settings, args: seq<seq<byte>>)
    requires Reachable(p) && Written(p, args).Sent?
    ensures var m := Concat(args)[..|Concat(args)| % WRAP];
      Fits(p, m) && Written(p, args).frame == Frame(p, m)
  {
    hide Frame, Concat, BeforeLast, HeaderMax;
    var n := |Concat(args)| % WRAP;
    assert n <= |Concat(args)| && |Concat(args)[..n]| == n;
  }

  /** A message of 2^32 - 1 bytes is within the limits of a four-byte header, and writing it panics. */
  lemma LongestMessagePanics(args: seq<seq<byte>>)
    requires |Concat(args)| == WRAP - 1
    ensures var p := Settings(4, 1, WRAP - 1, false);
      Reachable(p) && Intended(p, Concat(args)).Sent? && !Exact(p, |Concat(args)|) && Written(p, args) == Panicked
  {
  }

  /** One piece of 2^32 + 5 bytes should be refused, and its first five bytes are sent instead. */
  lemma OversizedMessageIsCut(piece: seq<byte>)
    requires |piece| == WRAP + 5
    ensures var p := Settings(2, 1, 4096, false);
      Intended(p, Concat([piece])) == RefusedTooLong && Written(p, [piece]) == Sent(Frame(p, piece[..5]))
  {
    hide Concat, BeforeLast, Frame;
    OnePiece(piece);
    assert |piece| % WRAP == 5;
  }

  lemma OnePiece(piece: seq<byte>)
    ensures Concat([piece]) == piece && BeforeLast([piece]) == []
  {
    assert [piece][..0] == [];
    assert Concat([]) == [] && [] + piece == piece;
  }

  /** The reading end of a connection that will deliver `pending` and then end. */
  class ByteStream {
    var pending: seq<byte>

    constructor (bytes: seq<byte>)
      ensures pending == bytes
    {
      pending := bytes;
    }

    /** `io.ReadFull`: all `n` bytes, or an error with the stream used up. */
    method ReadFull(n: nat) returns (ok: bool, data: seq<byte>)
      modifies this
      ensures ok <==> n <= |old(pending)|
      ensures ok ==> data == old(pending)[..n] && pending == old(pending)[n..]
      ensures !ok ==> pending == []
    {
      if n <= |pending| {
        ok, data := true, pending[..n];
        pending := pending[n..];
      } else {
        ok, data := false, [];
        pending := [];
      }
    }
  }

  class MsgParser {
    var lenMsgLen: int
    var minMsgLen: uint32
    var maxMsgLen: uint32
    var littleEndian: bool

    function Value(): Settings
      reads this
    {
      Settings(lenMsgLen, minMsgLen, maxMsgLen, littleEndian)
    }

    constructor ()
      ensures Reachable(Value()) && Value() == Settings(2, 1, 4096, false)
    {
      lenMsgLen := 2;
      minMsgLen := 1;
      maxMsgLen := 4096;
      littleEndian := false;
    }

    /** Unusable arguments leave a setting alone; both limits are brought down to what the header can hold. */
    method SetMsgLen(lenMsgLen: int, minMsgLen: uint32, maxMsgLen: uint32)
      requires Reachable(Value())
      modifies this
      ensures Reachable(Value()) && littleEndian == old(littleEndian)
      ensures this.lenMsgLen == if lenMsgLen in {1, 2, 4} then lenMsgLen else old(this.lenMsgLen)
      ensures var asked := if minMsgLen != 0 then minMsgLen else old(this.minMsgLen);
        this.minMsgLen == if asked <= HeaderMax(this.lenMsgLen) then asked else HeaderMax(this.lenMsgLen)
      ensures var asked := if maxMsgLen != 0 then maxMsgLen else old(this.maxMsgLen);
        this.maxMsgLen == if asked <= HeaderMax(this.lenMsgLen) then asked else HeaderMax(this.lenMsgLen)
    {
      hide HeaderMax;
      if lenMsgLen == 1 || lenMsgLen == 2 || lenMsgLen == 4 {
        this.lenMsgLen := lenMsgLen;
      }
      if minMsgLen != 0 {
        this.minMsgLen := minMsgLen;
      }
      if maxMsgLen != 0 {
        this.maxMsgLen := maxMsgLen;
      }
      var max: uint32 := HeaderMax(this.lenMsgLen);
      if this.minMsgLen > max {
        this.minMsgLen := max;
      }
      if this.maxMsgLen > max {
        this.maxMsgLen := max;
      }
    }

    method SetByteOrder(littleEndian: bool)
      requires Reachable(Value())
      modifies this
      ensures Reachable(Value()) && Value() == old(Value()).(littleEndian := littleEndian)
    {
      this.littleEndian := littleEndian;
    }

    method Read(conn: ByteStream) returns (d: Decoded)
      requires Reachable(Value())
      modifies conn
      ensures d == DecodeOne(Value(), old(conn.pending))
      ensures d.Msg? ==> conn.pending == d.rest
      ensures d.EndOfInput? ==> conn.pending == []
      ensures d.TooLong? || d.TooShort? ==> conn.pending == old(conn.pending)[lenMsgLen..]
    {
      hide HeaderValue, HeaderMax;
      ghost var input := conn.pending;
      var ok, bufMsgLen := conn.ReadFull(lenMsgLen);
      if !ok {
        return EndOfInput;
      }
      var msgLen := HeaderValue(Value(), bufMsgLen);
      if msgLen > maxMsgLen {
        return TooLong;
      } else if msgLen < minMsgLen {
        return TooShort;
      }
      SliceTwice(input, lenMsgLen, msgLen);
      var msgData;
      ok, msgData := conn.ReadFull(msgLen);
      if !ok {
        return EndOfInput;
      }
      return Msg(msgData, conn.pending);
    }

    /** The whole of a message, given in pieces, is framed; the exact exceptions are lengths that wrap. */
    method Write(args: seq<seq<byte>>) returns (r: Outcome)
      requires Reachable(Value())
      ensures r == Written(Value(), args)
      ensures r == Intended(Value(), Concat(args)) <==> Exact(Value(), |Concat(args)|)
      ensures r.Sent? ==> exists m :: Fits(Value(), m) && r.frame == Frame(Value(), m)
      ensures |Concat(args)| + 4 < 0x1_0000_0000 ==> var n := |Concat(args)|;
        && (r.RefusedTooLong? <==> n > maxMsgLen) && (r.RefusedTooShort? <==> n <= maxMsgLen && n < minMsgLen)
        && (r.Sent? <==> minMsgLen <= n <= maxMsgLen)
        && (r.Sent? ==> r.frame == Header(Value(), n) + Concat(args))
    {
      WrittenAsIntended(Value(), args);
      if |Concat(args)| + 4 < WRAP {
        WrittenShort(Value(), args);
      }
      if Written(Value(), args).Sent? {
        WrittenIsFrame(Value(), args);
      }
      var msgLen := SumLengths(args);
      if msgLen > maxMsgLen {
        return RefusedTooLong;
      } else if msgLen < minMsgLen {
        return RefusedTooShort;
      }
      r := Fill(Value(), args, (lenMsgLen + msgLen) % WRAP, msgLen);
    }
  }

  /** The sum of the lengths in 32-bit arithmetic. */
  method SumLengths(args: seq<seq<byte>>) returns (msgLen: uint32)
    ensures msgLen == |Concat(args)| % WRAP
  {
    msgLen := 0;
    assert Concat(args[..0]) == [];
    hide Concat;
    for i := 0 to |args|
      invariant msgLen == |Concat(args[..i])| % WRAP
    {
      NextPiece([], args, i);
      AddWrapped(|Concat(args[..i])|, |args[i]|);
      msgLen := (msgLen + |args[i]|) % WRAP;
    }
    assert args[..|args|] == args;
  }

  /** The first `size` bytes, or all when there are fewer. */
  function Cut(bytes: seq<byte>, size: nat): (r: seq<byte>)
    ensures |bytes| <= size ==> r == bytes
    ensures |r| == if |bytes| <= size then |bytes| else size
  {
    if |bytes| <= size then bytes else bytes[..size]
  }

  /** The built-in `copy(msg[l:], src)`: as much of `src` as there is room for. */
  method CopyAt(msg: array<byte>, l: nat, src: seq<byte>)
    requires l <= msg.Length
    modifies msg
    ensures var done := Cut(old(msg[..l]) + src, msg.Length); msg[..|done|] == done
  {
    var n := if |src| <= msg.Length - l then |src| else msg.Length - l;
    forall k | 0 <= k < n {
      msg[l + k] := src[k];
    }
  }

  lemma NextPiece(header: seq<byte>, args: seq<seq<byte>>, i: nat)
    requires i < |args|
    ensures header + Concat(args[..i + 1]) == header + Concat(args[..i]) + args[i]
  {
    assert args[..i + 1][..i] == args[..i];
  }

  lemma CutFrame(header: seq<byte>, data: seq<byte>, n: nat)
    requires n <= |data|
    ensures Cut(header + data, |header| + n) == header + data[..n]
  {
  }

  /** Copies the pieces behind the header, one after the other; a piece that starts behind the end panics. */
  method CopyPieces(msg: array<byte>, ghost header: seq<byte>, start: nat, args: seq<seq<byte>>) returns (ok: bool)
    requires |header| == start <= msg.Length && msg[..start] == header
    modifies msg
    ensures ok <==> start + |BeforeLast(args)| <= msg.Length
    ensures ok ==> var done := Cut(header + Concat(args), msg.Length); msg[..|done|] == done
  {
    assert Concat(args[..0]) == [] && header + [] == header;
    hide Cut, Concat, BeforeLast;
    var l := start;
    ghost var done := header;
    for i := 0 to |args|
      invariant l == start + |Concat(args[..i])|
      invariant i > 0 ==> start + |Concat(args[..i - 1])| <= msg.Length
      invariant done == Cut(header + Concat(args[..i]), msg.Length) && msg[..|done|] == done
    {
      if l > msg.Length {
        StartsBehind(args, i);
        return false;
      }
      assert msg[..l] == done;
      NextPiece(header, args, i);
      CopyAt(msg, l, args[i]);
      done := Cut(done + args[i], msg.Length);
      l := l + |args[i]|;
    }
    LastStart(args);
    return true;
  }

  lemma StartsBehind(args: seq<seq<byte>>, i: nat)
    requires i < |args|
    ensures |Concat(args[..i])| <= |BeforeLast(args)|
  {
    ConcatGrows(args, i, |args| - 1);
  }

  lemma LastStart(args: seq<seq<byte>>)
    ensures args[..|args|] == args
    ensures BeforeLast(args) == if args == [] then [] else Concat(args[..|args| - 1])
  {
  }

  /** Allocates `size` bytes and fills in the header and the pieces. */
  method Fill(p: Settings, args: seq<seq<byte>>, size: uint32, msgLen: uint32) returns (r: Outcome)
    requires Reachable(p) && msgLen == |Concat(args)| % WRAP && size == (p.lenMsgLen + msgLen) % WRAP
    ensures r ==
      if p.lenMsgLen + msgLen >= WRAP || |BeforeLast(args)| > msgLen then Panicked
      else Sent(Frame(p, Concat(args)[..msgLen]))
  {
    hide Header, HeaderMax, Cut, Concat, BeforeLast;
    if size < p.lenMsgLen {
      return Panicked;
    }
    var msg := new byte[size](_ => 0);
    var header := Header(p, msgLen);
    CopyAt(msg, 0, header);
    assert [] + header == header;
    var ok := CopyPieces(msg, header, p.lenMsgLen, args);
    if !ok {
      return Panicked;
    }
    CutFrame(header, Concat(args), msgLen);
    assert msg[..size] == msg[..];
    return Sent(msg[..]);
  }
}
