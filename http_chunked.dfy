/**
 * `ChunkProcessor`: the incremental decoder for the chunked transfer coding of section 4.1 of
 * RFC 7230. Bytes arrive in pieces through `push`; complete chunks are moved from `buffer`
 * to `result`; `push` answers -1 on an error, 0 while more input is needed and 1 once the
 * zero-size chunk has been read. Chunk extensions, trailer fields and `int` overflow of the
 * size are outside what the processor handles (an extension is reported as an error).
 */
module HttpChunked {
  import opened Wrappers

  const CRLF := "\r\n"

  /** A CR LF pair starts at `i`. */
  predicate CrlfAt(b: string, i: nat) {
    i + 1 < |b| && b[i] == '\r' && b[i + 1] == '\n'
  }

  /** The scan of `try_to_parse_size`: the first CR LF at or after `from`. */
  function FindCrlfFrom(b: string, from: nat): (r: Option<nat>)
    decreases |b| - from
    ensures r.Some? ==> from <= r.value && CrlfAt(b, r.value)
    ensures r.Some? ==> forall j :: from <= j < r.value ==> !CrlfAt(b, j)
    ensures r.None? ==> forall j :: from <= j ==> !CrlfAt(b, j)
  {
    if from + 1 >= |b| then None
    else if b[from] == '\r' && b[from + 1] == '\n' then Some(from)
    else FindCrlfFrom(b, from + 1)
  }

  function FindCrlf(b: string): Option<nat> {
    FindCrlfFrom(b, 0)
  }

  lemma {:induction false} FindCrlfFromIsFirst(b: string, from: nat, k: nat)
    requires from <= k && CrlfAt(b, k)
    requires forall j :: from <= j < k ==> !CrlfAt(b, j)
    ensures FindCrlfFrom(b, from) == Some(k)
    decreases k - from
  {
    if from < k {
      FindCrlfFromIsFirst(b, from + 1, k);
    }
  }

  // ---------------------------------------------------------------- hexadecimal sizes

  predicate IsHexDigit(c: char) {
    ('0' <= c <= '9') || ('A' <= c <= 'F') || ('a' <= c <= 'f')
  }

  function HexDigitValue(c: char): (v: nat)
    requires IsHexDigit(c)
    ensures v < 16
  {
    if '0' <= c <= '9' then c as int - '0' as int
    else if 'A' <= c <= 'F' then c as int - 'A' as int + 10
    else c as int - 'a' as int + 10
  }

  predicate AllHex(s: string) {
    forall i :: 0 <= i < |s| ==> IsHexDigit(s[i])
  }

  /** The value `parse_hex` accumulates, digit by digit from the left; "" is 0. */
  function HexValue(s: string): nat
    requires AllHex(s)
    decreases |s|
  {
    if |s| == 0 then 0 else HexValue(s[..|s| - 1]) * 16 + HexDigitValue(s[|s| - 1])
  }

  function LowerHexDigit(c: char): (r: char)
    requires IsHexDigit(c)
  {
    if 'A' <= c <= 'F' then (c as int - 'A' as int + 'a' as int) as char else c
  }

  function ToLowerHex(s: string): (r: string)
    requires AllHex(s)
    ensures |r| == |s|
  {
    seq(|s|, i requires 0 <= i < |s| => LowerHexDigit(s[i]))
  }

  /** `parse_hex` does not care about the case of the digits 'a'..'f'. */
  lemma {:induction false} HexValueCaseInsensitive(s: string)
    requires AllHex(s)
    ensures AllHex(ToLowerHex(s)) && HexValue(ToLowerHex(s)) == HexValue(s)
    decreases |s|
  {
    if |s| > 0 {
      var s' := s[..|s| - 1];
      HexValueCaseInsensitive(s');
      assert ToLowerHex(s)[..|s| - 1] == ToLowerHex(s');
    }
  }

  function HexDigitChar(d: nat): (c: char)
    requires d < 16
    ensures IsHexDigit(c) && HexDigitValue(c) == d
  {
    if d < 10 then ('0' as int + d) as char else ('a' as int + d - 10) as char
  }

  /** The size line a sender writes for `n`: lower-case hex without leading zeros. */
  function ToHex(n: nat): (s: string)
    decreases n
    ensures |s| > 0
  {
    if n < 16 then [HexDigitChar(n)] else ToHex(n / 16) + [HexDigitChar(n % 16)]
  }

  lemma {:induction false} ToHexRoundTrip(n: nat)
    ensures AllHex(ToHex(n)) && HexValue(ToHex(n)) == n
    decreases n
  {
    if n >= 16 {
      ToHexRoundTrip(n / 16);
      var s := ToHex(n);
      assert s[..|s| - 1] == ToHex(n / 16);
    }
  }

  // ---------------------------------------------------------------- the processor's state

  datatype ChunkState = ChunkState(result: string, buffer: string, size: int, sizeSize: int, error: bool)

  /** What the processor's fields always satisfy: a size is only known together with its line length. */
  predicate WellFormed(st: ChunkState) {
    st.size >= -1 && st.sizeSize >= -1 && (st.size >= 0 ==> st.sizeSize >= 0)
  }

  const INITIAL := ChunkState("", "", -1, -1, false)

  /** The shortest body: the zero-size chunk alone. */
  const TERMINATOR := "0\r\n\r\n"

  function Append(st: ChunkState, data: string): ChunkState {
    st.(buffer := st.buffer + data)
  }

  /**
   * `try_to_parse_size`: find the first CRLF in the buffer; the text before it is the size
   * line, parsed by `parse_hex`, which sets `error` and yields -1 on a non-hex character.
   */
  function ParseSize(st: ChunkState): (r: ChunkState)
    ensures WellFormed(r) && r.result == st.result && r.buffer == st.buffer
    ensures FindCrlf(st.buffer).None? ==> r.size == -1 && r.sizeSize == -1 && r.error == st.error
    ensures FindCrlf(st.buffer).Some? ==>
              var line := st.buffer[..FindCrlf(st.buffer).value];
              && r.sizeSize == |line|
              && r.error == (st.error || !AllHex(line))
              && r.size == (if AllHex(line) then HexValue(line) else -1)
  {
    match FindCrlf(st.buffer)
    case None => st.(size := -1, sizeSize := -1)
    case Some(pos) =>
      var line := st.buffer[..pos];
      if AllHex(line) then st.(sizeSize := pos, size := HexValue(line))
      else st.(sizeSize := pos, size := -1, error := true)
  }

  /**
   * `push` after the new bytes were appended. With no size known, `try_to_parse_size` runs
   * first; with one known, the `while` loop takes the chunk once it is all in the buffer.
   * After a data chunk the loop parses the next size, which is what the recursive call on
   * a state with no size known does.
   */
  function Run(st: ChunkState): (r: (ChunkState, int))
    requires WellFormed(st)
    decreases |st.buffer|, if st.size == -1 then 1 else 0
    ensures WellFormed(r.0)
  {
    if st.size == -1 then
      var st1 := ParseSize(st);
      if st1.error then (st1, -1)
      else if st1.size == -1 then (st1, 0)
      else Run(st1)
    else
      var stop := st.sizeSize + 2 + st.size;
      var end := stop + 2;
      if |st.buffer| < end then (st, 0)
      else if st.buffer[stop..end] != CRLF then (st, -1)
      else
        var payload := st.buffer[st.sizeSize + 2..stop];
        if st.size == 0 then
          (st.(result := st.result + payload, buffer := st.buffer[end..]), if |st.buffer| > end then -1 else 1)
        else Run(ChunkState(st.result + payload, st.buffer[end..], -1, -1, st.error))
  }

  /** `push(data)` on a processor in state `st`: the new state and the answer. */
  function Feed(st: ChunkState, data: string): (r: (ChunkState, int))
    requires WellFormed(st)
    ensures WellFormed(r.0)
  {
    Run(Append(st, data))
  }

  /** `push` applied to each piece in turn, collecting the answers. */
  function FeedAll(st: ChunkState, pieces: seq<string>): (r: (ChunkState, seq<int>))
    requires WellFormed(st)
    decreases |pieces|
    ensures WellFormed(r.0) && |r.1| == |pieces|
  {
    if |pieces| == 0 then (st, [])
    else
      var (st1, code) := Feed(st, pieces[0]);
      var (st2, codes) := FeedAll(st1, pieces[1..]);
      (st2, [code] + codes)
  }

  // ---------------------------------------------------------------- the class

  /** `ChunkProcessor`. */
  class ChunkProcessor {
    var result: string
    var buffer: string
    var size: int
    var sizeSize: int
    var error: bool

    function State(): ChunkState
      reads this
    {
      ChunkState(result, buffer, size, sizeSize, error)
    }

    constructor ()
      ensures State() == INITIAL
    {
      result, buffer, size, sizeSize, error := "", "", -1, -1, false;
    }

    /** `parse_hex`: the value of a hex string, or -1 (setting `error`) at the first non-hex character. */
    method ParseHex(str: string) returns (res: int)
      modifies this`error
      ensures res == if AllHex(str) then HexValue(str) else -1
      ensures error == (old(error) || !AllHex(str))
    {
      res := 0;
      var i := 0;
      while i < |str|
        invariant i <= |str|
        invariant AllHex(str[..i]) && res == HexValue(str[..i])
        invariant error == old(error)
      {
        var c := str[i];
        assert str[..i + 1][..i] == str[..i];
        res := res * 16;
        if '0' <= c <= '9' {
          res := res + (c as int - '0' as int);
        } else if 'A' <= c <= 'F' {
          res := res + (c as int - 'A' as int + 10);
        } else if 'a' <= c <= 'f' {
          res := res + (c as int - 'a' as int + 10);
        } else {
          error := true;
          return -1;
        }
        i := i + 1;
      }
      assert str[..|str|] == str;
    }

    /** `try_to_parse_size`. */
    method TryToParseSize()
      modifies this`size, this`sizeSize, this`error
      ensures State() == ParseSize(old(State()))
    {
      var pos := 0;
      while pos + 1 < |buffer|
        invariant pos <= |buffer|
        invariant forall j :: 0 <= j < pos ==> !CrlfAt(buffer, j)
      {
        if buffer[pos] == '\r' && buffer[pos + 1] == '\n' {
          break;
        }
        pos := pos + 1;
      }
      if pos + 1 >= |buffer| {
        size, sizeSize := -1, -1;
      } else {
        FindCrlfFromIsFirst(buffer, 0, pos);
        sizeSize := pos;
        size := ParseHex(buffer[..sizeSize]);
      }
    }

    /** `push`: append the bytes and decode every chunk that is now complete. */
    method Push(str: string) returns (code: int)
      requires WellFormed(State())
      modifies this
      ensures (State(), code) == Feed(old(State()), str)
    {
      ghost var outcome := Feed(State(), str);
      buffer := buffer + str;
      if size == -1 {
        TryToParseSize();
        if error {
          return -1;
        }
        if size == -1 {
          return 0;
        }
      }
      while |buffer| >= sizeSize + 2 + size + 2
        invariant size >= 0 && sizeSize >= 0
        invariant Run(State()) == outcome
        decreases |buffer|
      {
        var more;
        code, more := TakeChunk();
        if !more {
          return;
        }
      }
      return 0;
    }

    /**
     * One turn of the `while` loop of `push`: check the CRLF after the payload, move the
     * payload to `result`, and either finish (zero-size chunk) or parse the next size.
     * `more` says whether the loop goes on.
     */
    method TakeChunk() returns (code: int, more: bool)
      requires size >= 0 && sizeSize >= 0 && |buffer| >= sizeSize + 2 + size + 2
      modifies this
      ensures more ==> size >= 0 && sizeSize >= 0 && |buffer| < |old(buffer)| && Run(State()) == Run(old(State()))
      ensures !more ==> (State(), code) == Run(old(State()))
    {
      var stop := sizeSize + 2 + size;
      var end := stop + 2;
      if buffer[stop..end] != CRLF {
        return -1, false;
      }
      result := result + buffer[sizeSize + 2..stop];
      buffer := buffer[end..];
      if size == 0 {
        if |buffer| > 0 {
          return -1, false;
        }
        return 1, false;
      }
      ghost var next := ChunkState(result, buffer, -1, -1, error);
      assert Run(old(State())) == Run(next);
      ParseSizeIgnoresSize(next, size, sizeSize);
      TryToParseSize();
      if error {
        return -1, false;
      }
      if size == -1 {
        return 0, false;
      }
      return 0, true;
    }
  }

  /** `try_to_parse_size` overwrites both size fields, so their old values do not matter. */
  lemma ParseSizeIgnoresSize(st: ChunkState, size: int, sizeSize: int)
    ensures ParseSize(st.(size := size, sizeSize := sizeSize)) == ParseSize(st)
  {
  }

  // ---------------------------------------------------------------- encodings

  /** A data chunk: its size line and its payload. */
  datatype Chunk = Chunk(sizeLine: string, data: string)

  /** A data chunk as section 4.1 of RFC 7230 has it, without extension: hex size, non-empty data. */
  predicate ValidChunk(c: Chunk) {
    AllHex(c.sizeLine) && HexValue(c.sizeLine) == |c.data| && |c.data| > 0
  }

  /** A size line for the last chunk: hex digits of value zero, such as "0". */
  predicate ZeroSizeLine(line: string) {
    AllHex(line) && HexValue(line) == 0
  }

  /** The chunked body: each chunk as `size CRLF data CRLF`, then `last CRLF CRLF`. */
  function Encode(chunks: seq<Chunk>, last: string): string
    decreases |chunks|
  {
    if |chunks| == 0 then last + CRLF + CRLF
    else chunks[0].sizeLine + CRLF + chunks[0].data + CRLF + Encode(chunks[1..], last)
  }

  function Payload(chunks: seq<Chunk>): string
    decreases |chunks|
  {
    if |chunks| == 0 then "" else chunks[0].data + Payload(chunks[1..])
  }

  function Concat(pieces: seq<string>): string
    decreases |pieces|
  {
    if |pieces| == 0 then "" else pieces[0] + Concat(pieces[1..])
  }

  /** The sender's encoding of a payload: its length in hex and the payload itself. */
  lemma {:induction false} HexSizedChunkIsValid(p: string)
    requires |p| > 0
    ensures ValidChunk(Chunk(ToHex(|p|), p))
  {
    ToHexRoundTrip(|p|);
  }

  // ---------------------------------------------------------------- lemmas on the search

  lemma {:induction false} FindCrlfAfterLine(line: string, rest: string)
    requires forall i :: 0 <= i < |line| ==> line[i] != '\r'
    ensures FindCrlf(line + CRLF + rest) == Some(|line|)
  {
    var s := line + CRLF + rest;
    assert s[|line|] == '\r' && s[|line| + 1] == '\n';
    forall j | 0 <= j < |line|
      ensures !CrlfAt(s, j)
    {
      assert s[j] == line[j];
    }
    FindCrlfFromIsFirst(s, 0, |line|);
  }

  lemma {:induction false} NoCrlfInShortPrefix(line: string, p: string)
    requires forall i :: 0 <= i < |line| ==> line[i] != '\r'
    requires |p| < |line| + 2 && p == (line + CRLF)[..|p|]
    ensures FindCrlf(p).None?
  {
    forall j | 0 <= j
      ensures !CrlfAt(p, j)
    {
      if j + 1 < |p| {
        assert p[j] == line[j];
      }
    }
  }

  /** Bytes appended after a CR LF do not move the first one. */
  lemma {:induction false} FindCrlfAppend(b: string, d: string)
    requires FindCrlf(b).Some?
    ensures FindCrlf(b + d) == FindCrlf(b)
  {
    var k := FindCrlf(b).value;
    forall j | 0 <= j < k
      ensures !CrlfAt(b + d, j)
    {
      assert !CrlfAt(b, j);
    }
    FindCrlfFromIsFirst(b + d, 0, k);
  }

  // ---------------------------------------------------------------- consuming one chunk

  /** `try_to_parse_size` on a buffer that starts with a size line without CR. */
  lemma {:induction false} ParseSizeLine(st: ChunkState, line: string, rest: string)
    requires forall i :: 0 <= i < |line| ==> line[i] != '\r'
    requires st.buffer == line + CRLF + rest
    ensures ParseSize(st) == st.(sizeSize := |line|, size := if AllHex(line) then HexValue(line) else -1,
                                 error := st.error || !AllHex(line))
  {
    assert st.buffer[..|line|] == line;
    FindCrlfAfterLine(line, rest);
  }

  /** With the size known and the whole data chunk in the buffer, the payload is taken. */
  lemma {:induction false} DataChunkTaken(st: ChunkState, line: string, data: string, rest: string)
    requires st.size == |data| > 0 && st.sizeSize == |line|
    requires st.buffer == line + CRLF + data + CRLF + rest
    ensures Run(st) == Run(ChunkState(st.result + data, rest, -1, -1, st.error))
  {
    var stop := |line| + 2 + |data|;
    var end := stop + 2;
    assert st.buffer[|line| + 2..stop] == data;
    assert st.buffer[stop..end] == CRLF;
    assert st.buffer[end..] == rest;
  }

  /** One complete data chunk at the front of the buffer is decoded, and decoding goes on after it. */
  lemma {:induction false} ChunkStep(r: string, buf: string, line: string, data: string, rest: string)
    requires AllHex(line) && HexValue(line) == |data| && |data| > 0
    requires buf == line + CRLF + data + CRLF + rest
    ensures Run(ChunkState(r, buf, -1, -1, false)) == Run(ChunkState(r + data, rest, -1, -1, false))
  {
    var st := ChunkState(r, buf, -1, -1, false);
    assert buf == line + CRLF + (data + CRLF + rest);
    ParseSizeLine(st, line, data + CRLF + rest);
    var st1 := ChunkState(r, buf, |data|, |line|, false);
    assert Run(st) == Run(st1);
    DataChunkTaken(st1, line, data, rest);
  }

  /** The zero-size chunk ends decoding: 1 if nothing follows it, -1 otherwise. */
  lemma {:induction false} LastChunkStep(r: string, last: string, t: string)
    requires ZeroSizeLine(last)
    ensures Run(ChunkState(r, last + CRLF + CRLF + t, -1, -1, false))
            == (ChunkState(r, t, 0, |last|, false), if |t| > 0 then -1 else 1)
  {
    var buf := last + CRLF + CRLF + t;
    assert buf == last + CRLF + (CRLF + t);
    assert buf[..|last|] == last;
    FindCrlfAfterLine(last, CRLF + t);
    var st1 := ParseSize(ChunkState(r, buf, -1, -1, false));
    assert st1 == ChunkState(r, buf, 0, |last|, false);
    assert buf[|last| + 2..|last| + 4] == CRLF;
    assert buf[|last| + 4..] == t;
    assert r + buf[|last| + 2..|last| + 2] == r;
  }

  /** Decoding a whole encoding: every payload in order, then the end (or -1 on trailing bytes). */
  lemma {:induction false} RunEncoded(r: string, chunks: seq<Chunk>, last: string, t: string)
    requires forall i :: 0 <= i < |chunks| ==> ValidChunk(chunks[i])
    requires ZeroSizeLine(last)
    ensures Run(ChunkState(r, Encode(chunks, last) + t, -1, -1, false))
            == (ChunkState(r + Payload(chunks), t, 0, |last|, false), if |t| > 0 then -1 else 1)
    decreases |chunks|
  {
    if |chunks| == 0 {
      LastChunkStep(r, last, t);
      assert r + Payload(chunks) == r;
    } else {
      FirstChunkStep(r, chunks, last, t);
      RunEncoded(r + chunks[0].data, chunks[1..], last, t);
      PayloadCons(r, chunks);
    }
  }

  lemma {:induction false} PayloadCons(r: string, chunks: seq<Chunk>)
    requires |chunks| > 0
    ensures r + chunks[0].data + Payload(chunks[1..]) == r + Payload(chunks)
  {
    var p := Payload(chunks[1..]);
    assert Payload(chunks) == chunks[0].data + p;
    assert r + chunks[0].data + p == r + (chunks[0].data + p);
  }

  lemma {:induction false} FirstChunkStep(r: string, chunks: seq<Chunk>, last: string, t: string)
    requires |chunks| > 0 && ValidChunk(chunks[0])
    ensures Run(ChunkState(r, Encode(chunks, last) + t, -1, -1, false))
            == Run(ChunkState(r + chunks[0].data, Encode(chunks[1..], last) + t, -1, -1, false))
  {
    var c := chunks[0];
    var e := Encode(chunks[1..], last);
    assert Encode(chunks, last) + t == c.sizeLine + CRLF + c.data + CRLF + (e + t);
    ChunkStep(r, Encode(chunks, last) + t, c.sizeLine, c.data, e + t);
  }

  /** A prefix of `a + b` that is at least as long as `a` is `a` followed by a prefix of `b`. */
  lemma {:induction false} PrefixSplit(a: string, b: string, p: string)
    requires |a| <= |p| <= |a + b| && p == (a + b)[..|p|]
    ensures p == a + p[|a|..] && p[|a|..] == b[..|p| - |a|]
  {
  }

  /** Without a complete size line, `push` waits for more bytes. */
  lemma {:induction false} ShortPrefixWaits(r: string, p: string, line: string)
    requires forall i :: 0 <= i < |line| ==> line[i] != '\r'
    requires |p| < |line| + 2 && p == (line + CRLF)[..|p|]
    ensures Run(ChunkState(r, p, -1, -1, false)) == (ChunkState(r, p, -1, -1, false), 0)
  {
    NoCrlfInShortPrefix(line, p);
  }

  /** With the size line read but the chunk incomplete, `push` waits for more bytes. */
  lemma {:induction false} PartialChunkWaits(r: string, p: string, line: string, q: string, n: nat)
    requires AllHex(line) && HexValue(line) == n
    requires p == line + CRLF + q && |q| < n + 2
    ensures Run(ChunkState(r, p, -1, -1, false)) == (ChunkState(r, p, n, |line|, false), 0)
  {
    assert p[..|line|] == line;
    FindCrlfAfterLine(line, q);
  }

  /** The size line of the first chunk (or of the last chunk when there is no data chunk). */
  function FirstLine(chunks: seq<Chunk>, last: string): string {
    if |chunks| == 0 then last else chunks[0].sizeLine
  }

  function FirstData(chunks: seq<Chunk>): string {
    if |chunks| == 0 then "" else chunks[0].data
  }

  function FirstEnd(chunks: seq<Chunk>, last: string): nat {
    |FirstLine(chunks, last)| + 2 + |FirstData(chunks)| + 2
  }

  lemma {:induction false} EncodeFirst(chunks: seq<Chunk>, last: string)
    requires forall i :: 0 <= i < |chunks| ==> ValidChunk(chunks[i])
    requires ZeroSizeLine(last)
    ensures var line, data := FirstLine(chunks, last), FirstData(chunks);
            && AllHex(line) && HexValue(line) == |data|
            && Encode(chunks, last) == line + CRLF + (data + CRLF + (if |chunks| == 0 then "" else Encode(chunks[1..], last)))
  {
    if |chunks| > 0 {
      assert ValidChunk(chunks[0]);
    }
  }

  /** A proper prefix that ends inside the first chunk: `push` waits. */
  lemma {:induction false} PrefixInFirstChunk(r: string, chunks: seq<Chunk>, last: string, p: string)
    requires forall i :: 0 <= i < |chunks| ==> ValidChunk(chunks[i])
    requires ZeroSizeLine(last)
    requires |p| < FirstEnd(chunks, last) && p == Encode(chunks, last)[..|p|]
    ensures Run(ChunkState(r, p, -1, -1, false)).1 == 0
    ensures !Run(ChunkState(r, p, -1, -1, false)).0.error
  {
    EncodeFirst(chunks, last);
    var line, data := FirstLine(chunks, last), FirstData(chunks);
    var head := line + CRLF;
    var body := data + CRLF + (if |chunks| == 0 then "" else Encode(chunks[1..], last));
    if |p| < |head| {
      assert p == head[..|p|];
      ShortPrefixWaits(r, p, line);
    } else {
      PrefixSplit(head, body, p);
      PartialChunkWaits(r, p, line, p[|head|..], |data|);
    }
  }

  /** A proper prefix that goes past the first data chunk: `push` decodes that chunk and goes on. */
  lemma {:induction false} PrefixPastFirstChunk(r: string, chunks: seq<Chunk>, last: string, p: string)
    requires forall i :: 0 <= i < |chunks| ==> ValidChunk(chunks[i])
    requires ZeroSizeLine(last)
    requires FirstEnd(chunks, last) <= |p| < |Encode(chunks, last)| && p == Encode(chunks, last)[..|p|]
    ensures |chunks| > 0
    ensures var p' := p[FirstEnd(chunks, last)..];
            && |p'| < |Encode(chunks[1..], last)| && p' == Encode(chunks[1..], last)[..|p'|]
            && Run(ChunkState(r, p, -1, -1, false)) == Run(ChunkState(r + chunks[0].data, p', -1, -1, false))
  {
    EncodeFirst(chunks, last);
    var line, data := FirstLine(chunks, last), FirstData(chunks);
    var rest := if |chunks| == 0 then "" else Encode(chunks[1..], last);
    var head := line + CRLF;
    PrefixSplit(head, data + CRLF + rest, p);
    var q := p[|head|..];
    PrefixSplit(data + CRLF, rest, q);
    var p' := q[|data| + 2..];
    assert p' == p[FirstEnd(chunks, last)..];
    assert p == line + CRLF + data + CRLF + p';
    ChunkStep(r, p, line, data, p');
  }

  /** Before the encoding is complete, `push` always answers 0: keep going. */
  lemma {:induction false} RunProperPrefix(r: string, chunks: seq<Chunk>, last: string, p: string)
    requires forall i :: 0 <= i < |chunks| ==> ValidChunk(chunks[i])
    requires ZeroSizeLine(last)
    requires |p| < |Encode(chunks, last)| && p == Encode(chunks, last)[..|p|]
    ensures Run(ChunkState(r, p, -1, -1, false)).1 == 0
    ensures !Run(ChunkState(r, p, -1, -1, false)).0.error
    decreases |chunks|
  {
    if |p| < FirstEnd(chunks, last) {
      PrefixInFirstChunk(r, chunks, last, p);
    } else {
      PrefixPastFirstChunk(r, chunks, last, p);
      RunProperPrefix(r + chunks[0].data, chunks[1..], last, p[FirstEnd(chunks, last)..]);
    }
  }

  // ---------------------------------------------------------------- splitting the input

  lemma {:induction false} ParseSizeAppend(st: ChunkState, d: string)
    requires FindCrlf(st.buffer).Some?
    ensures ParseSize(Append(st, d)) == Append(ParseSize(st), d)
  {
    FindCrlfAppend(st.buffer, d);
    var pos := FindCrlf(st.buffer).value;
    assert (st.buffer + d)[..pos] == st.buffer[..pos];
  }

  /** `push` in two steps gives what one `push` of the joined bytes gives, once the first answered 0. */
  lemma {:induction false} RunAppend(st: ChunkState, d: string)
    requires WellFormed(st) && Run(st).1 == 0
    ensures Run(Append(Run(st).0, d)) == Run(Append(st, d))
    decreases |st.buffer|, if st.size == -1 then 1 else 0, 1
  {
    if st.size == -1 {
      RunAppendUnknownSize(st, d);
    } else {
      RunAppendKnownSize(st, d);
    }
  }

  lemma {:induction false} RunAppendUnknownSize(st: ChunkState, d: string)
    requires WellFormed(st) && st.size == -1 && Run(st).1 == 0
    ensures Run(Append(Run(st).0, d)) == Run(Append(st, d))
    decreases |st.buffer|, 1, 0
  {
    var st1 := ParseSize(st);
    if st1.size == -1 {
      assert ParseSize(Append(st1, d)) == ParseSize(Append(st, d));
    } else {
      ParseSizeAppend(st, d);
      RunAppend(st1, d);
    }
  }

  lemma {:induction false} RunAppendKnownSize(st: ChunkState, d: string)
    requires WellFormed(st) && st.size >= 0 && Run(st).1 == 0
    ensures Run(Append(Run(st).0, d)) == Run(Append(st, d))
    decreases |st.buffer|, 0, 0
  {
    var stop := st.sizeSize + 2 + st.size;
    var end := stop + 2;
    if |st.buffer| < end {
      assert Run(st) == (st, 0);
    } else {
      var st' := Append(st, d);
      var payload := st.buffer[st.sizeSize + 2..stop];
      assert st'.buffer[stop..end] == st.buffer[stop..end];
      assert st'.buffer[st.sizeSize + 2..stop] == payload;
      assert st'.buffer[end..] == st.buffer[end..] + d;
      var next := ChunkState(st.result + payload, st.buffer[end..], -1, -1, st.error);
      CompleteChunkTaken(st);
      CompleteChunkTaken(st');
      assert Append(next, d) == ChunkState(st.result + payload, st.buffer[end..] + d, -1, -1, st.error);
      assert Run(st) == Run(next);
      assert Run(st') == Run(Append(next, d));
      RunAppend(next, d);
    }
  }

  /** A state whose known-size chunk is complete in the buffer, correctly terminated, with data. */
  lemma {:induction false} CompleteChunkTaken(st: ChunkState)
    requires WellFormed(st) && st.size > 0
    requires |st.buffer| >= st.sizeSize + 2 + st.size + 2
    requires st.buffer[st.sizeSize + 2 + st.size..st.sizeSize + 2 + st.size + 2] == CRLF
    ensures var stop := st.sizeSize + 2 + st.size;
            Run(st) == Run(ChunkState(st.result + st.buffer[st.sizeSize + 2..stop], st.buffer[stop + 2..], -1, -1, st.error))
  {
  }

  lemma {:induction false} ConcatSplit(pieces: seq<string>)
    requires |pieces| > 0
    ensures Concat(pieces) == pieces[0] + Concat(pieces[1..])
  {
  }

  /** Feeding one more piece after a prefix that was answered 0. */
  lemma {:induction false} FeedOnePiece(r: string, consumed: string, p: string)
    requires Run(ChunkState(r, consumed, -1, -1, false)).1 == 0
    ensures Feed(Run(ChunkState(r, consumed, -1, -1, false)).0, p) == Run(ChunkState(r, consumed + p, -1, -1, false))
  {
    var st := ChunkState(r, consumed, -1, -1, false);
    RunAppend(st, p);
    assert Append(st, p) == ChunkState(r, consumed + p, -1, -1, false);
  }

  lemma {:induction false} FeedPieces(r: string, consumed: string, pieces: seq<string>, chunks: seq<Chunk>, last: string)
    requires forall i :: 0 <= i < |chunks| ==> ValidChunk(chunks[i])
    requires ZeroSizeLine(last)
    requires |pieces| > 0 && |pieces[|pieces| - 1]| > 0
    requires consumed + Concat(pieces) == Encode(chunks, last)
    requires Run(ChunkState(r, consumed, -1, -1, false)).1 == 0
    ensures var (st, codes) := FeedAll(Run(ChunkState(r, consumed, -1, -1, false)).0, pieces);
            && st == ChunkState(r + Payload(chunks), "", 0, |last|, false)
            && codes == seq(|pieces| - 1, _ => 0) + [1]
    decreases |pieces|
  {
    var p := pieces[0];
    FeedOnePiece(r, consumed, p);
    var rest := pieces[1..];
    ConcatSplit(pieces);
    if |pieces| == 1 {
      assert Concat(rest) == "";
      assert consumed + p == consumed + (p + "");
      LastPiece(r, consumed + p, chunks, last);
    } else {
      assert rest[|rest| - 1] == pieces[|pieces| - 1];
      ConcatLastNonEmpty(rest);
      MiddlePiece(r, consumed + p, Concat(rest), chunks, last);
      FeedPieces(r, consumed + p, rest, chunks, last);
      assert seq(|pieces| - 1, _ => 0) + [1] == [0] + (seq(|rest| - 1, _ => 0) + [1]);
    }
  }

  lemma {:induction false} LastPiece(r: string, all: string, chunks: seq<Chunk>, last: string)
    requires forall i :: 0 <= i < |chunks| ==> ValidChunk(chunks[i])
    requires ZeroSizeLine(last)
    requires all == Encode(chunks, last)
    ensures Run(ChunkState(r, all, -1, -1, false)) == (ChunkState(r + Payload(chunks), "", 0, |last|, false), 1)
  {
    RunEncoded(r, chunks, last, "");
    assert Encode(chunks, last) + "" == all;
  }

  lemma {:induction false} MiddlePiece(r: string, sofar: string, later: string, chunks: seq<Chunk>, last: string)
    requires forall i :: 0 <= i < |chunks| ==> ValidChunk(chunks[i])
    requires ZeroSizeLine(last)
    requires |later| > 0 && sofar + later == Encode(chunks, last)
    ensures Run(ChunkState(r, sofar, -1, -1, false)).1 == 0
  {
    assert sofar == Encode(chunks, last)[..|sofar|];
    RunProperPrefix(r, chunks, last, sofar);
  }

  lemma {:induction false} ConcatLastNonEmpty(pieces: seq<string>)
    requires |pieces| > 0 && |pieces[|pieces| - 1]| > 0
    ensures |Concat(pieces)| > 0
    decreases |pieces|
  {
    if |pieces| > 1 {
      ConcatLastNonEmpty(pieces[1..]);
    }
  }

  /**
   * Round trip: pushing a chunked encoding in any number of pieces (the last one non-empty)
   * answers 0 to every piece but the last, 1 to the last, and leaves the payloads
   * concatenated in `result` with nothing left over.
   */
  lemma {:induction false} DecodeInPieces(pieces: seq<string>, chunks: seq<Chunk>, last: string)
    requires forall i :: 0 <= i < |chunks| ==> ValidChunk(chunks[i])
    requires ZeroSizeLine(last)
    requires |pieces| > 0 && |pieces[|pieces| - 1]| > 0
    requires Concat(pieces) == Encode(chunks, last)
    ensures FeedAll(INITIAL, pieces).0 == ChunkState(Payload(chunks), "", 0, |last|, false)
    ensures FeedAll(INITIAL, pieces).1 == seq(|pieces| - 1, _ => 0) + [1]
  {
    assert Run(INITIAL) == (INITIAL, 0);
    assert "" + Concat(pieces) == Concat(pieces);
    FeedPieces("", "", pieces, chunks, last);
  }

  /** Decoding a whole encoding delivered at once. */
  lemma {:induction false} DecodeWhole(chunks: seq<Chunk>, last: string)
    requires forall i :: 0 <= i < |chunks| ==> ValidChunk(chunks[i])
    requires ZeroSizeLine(last)
    ensures Feed(INITIAL, Encode(chunks, last)) == (ChunkState(Payload(chunks), "", 0, |last|, false), 1)
  {
    var e := Encode(chunks, last);
    assert Append(INITIAL, e) == ChunkState("", e, -1, -1, false);
    LastPiece("", e, chunks, last);
    assert "" + Payload(chunks) == Payload(chunks);
  }

  // ---------------------------------------------------------------- error exits

  /** Bytes pushed together with the zero-size chunk make that `push` answer -1. */
  lemma {:induction false} TrailingBytesRejected(chunks: seq<Chunk>, last: string, t: string)
    requires forall i :: 0 <= i < |chunks| ==> ValidChunk(chunks[i])
    requires ZeroSizeLine(last)
    requires |t| > 0
    ensures Feed(INITIAL, Encode(chunks, last) + t).1 == -1
  {
    var b := Encode(chunks, last) + t;
    assert Append(INITIAL, b) == ChunkState("", b, -1, -1, false);
    RunEncoded("", chunks, last, t);
  }

  /**
   * After the end, `size` stays 0 and the old size line's length stays in `size_size`, so a
   * later `push` is not parsed afresh: it waits for `size_size + 4` bytes, answers -1 unless
   * bytes `size_size + 2` and `size_size + 3` are CR LF, and otherwise ends again.
   */
  lemma {:induction false} PushAfterEnd(p: string, k: nat, t: string)
    ensures Feed(ChunkState(p, "", 0, k, false), t) ==
              if |t| < k + 4 then (ChunkState(p, t, 0, k, false), 0)
              else if t[k + 2..k + 4] != CRLF then (ChunkState(p, t, 0, k, false), -1)
              else (ChunkState(p, t[k + 4..], 0, k, false), if |t| > k + 4 then -1 else 1)
  {
    assert Append(ChunkState(p, "", 0, k, false), t) == ChunkState(p, t, 0, k, false);
    if |t| >= k + 4 {
      assert p + t[k + 2..k + 2] == p;
    }
  }

  /** Pushing the terminator alone twice answers 1 both times. */
  lemma {:induction false} TerminatorTwiceInTwoPushes()
    ensures FeedAll(INITIAL, [TERMINATOR, TERMINATOR]).1 == [1, 1]
  {
    FirstTerminator();
    SecondTerminator();
    FeedAllTwo(INITIAL, TERMINATOR, TERMINATOR);
  }

  lemma FirstTerminator()
    ensures Feed(INITIAL, TERMINATOR) == (ChunkState("", "", 0, 1, false), 1)
  {
    assert Encode([], "0") == "0" + CRLF + CRLF;
    assert TERMINATOR == Encode([], "0");
    DecodeWhole([], "0");
  }

  lemma SecondTerminator()
    ensures Feed(ChunkState("", "", 0, 1, false), TERMINATOR).1 == 1
  {
    PushAfterEnd("", 1, TERMINATOR);
    assert TERMINATOR[3..5] == CRLF;
  }

  /** Two pushes in a row answer what each push answers on the state the previous one left. */
  lemma FeedAllTwo(st: ChunkState, a: string, b: string)
    requires WellFormed(st)
    ensures FeedAll(st, [a, b]).1 == [Feed(st, a).1, Feed(Feed(st, a).0, b).1]
  {
    var pieces := [a, b];
    assert pieces[1..] == [b];
    assert pieces[1..][1..] == [];
  }

  /**
   * So whether bytes after the terminator are rejected depends on how they are split into
   * pushes: a repeated terminator is rejected in the same push and accepted in the next one.
   */
  lemma {:induction false} SplitDecidesTrailingTerminator()
    ensures Feed(INITIAL, TERMINATOR + TERMINATOR).1 == -1
    ensures FeedAll(INITIAL, [TERMINATOR, TERMINATOR]).1 == [1, 1]
  {
    assert TERMINATOR == Encode([], "0");
    TrailingBytesRejected([], "0", TERMINATOR);
    TerminatorTwiceInTwoPushes();
  }

  /** The data chunks alone, each as `size CRLF data CRLF`. */
  function EncodeData(chunks: seq<Chunk>): string
    decreases |chunks|
  {
    if |chunks| == 0 then "" else chunks[0].sizeLine + CRLF + chunks[0].data + CRLF + EncodeData(chunks[1..])
  }

  /** A whole body is its data chunks followed by the last chunk. */
  lemma {:induction false} EncodeSplit(chunks: seq<Chunk>, last: string)
    ensures Encode(chunks, last) == EncodeData(chunks) + last + CRLF + CRLF
    decreases |chunks|
  {
    if |chunks| > 0 {
      EncodeSplit(chunks[1..], last);
    }
  }

  /** Good data chunks at the front of the buffer are decoded one by one, whatever follows them. */
  lemma {:induction false} RunDataChunks(r: string, chunks: seq<Chunk>, tail: string)
    requires forall i :: 0 <= i < |chunks| ==> ValidChunk(chunks[i])
    ensures Run(ChunkState(r, EncodeData(chunks) + tail, -1, -1, false))
            == Run(ChunkState(r + Payload(chunks), tail, -1, -1, false))
    decreases |chunks|
  {
    if |chunks| == 0 {
      assert EncodeData(chunks) + tail == tail;
      assert r + Payload(chunks) == r;
    } else {
      var c := chunks[0];
      var e := EncodeData(chunks[1..]);
      assert EncodeData(chunks) + tail == c.sizeLine + CRLF + c.data + CRLF + (e + tail);
      ChunkStep(r, EncodeData(chunks) + tail, c.sizeLine, c.data, e + tail);
      RunDataChunks(r + c.data, chunks[1..], tail);
      PayloadCons(r, chunks);
    }
  }

  /** With no size known, the old `size_size` plays no part. */
  lemma RunIgnoresSizeSize(st: ChunkState)
    requires WellFormed(st) && st.size == -1
    ensures Run(st) == Run(st.(sizeSize := -1))
  {
    ParseSizeIgnoresSize(st.(sizeSize := -1), -1, st.sizeSize);
    assert st.(sizeSize := -1).(size := -1, sizeSize := st.sizeSize) == st;
  }

  /** With `error` already set, `push` answers -1 before looking at the new bytes' meaning. */
  lemma ErrorIsSticky(st: ChunkState, buf: string)
    requires WellFormed(st) && st.size == -1 && st.error
    ensures Feed(st, buf).1 == -1 && Feed(st, buf).0.error
  {
  }

  /**
   * A size line with a character that is not a hex digit (a chunk extension after ';', say)
   * makes `push` answer -1 and sets `error`, also when good chunks come before it in the
   * same push, and from any processor that is between chunks.
   */
  lemma {:induction false} BadSizeLineRejected(st: ChunkState, chunks: seq<Chunk>, line: string, rest: string)
    requires WellFormed(st) && st.size == -1 && st.buffer == ""
    requires forall i :: 0 <= i < |chunks| ==> ValidChunk(chunks[i])
    requires FindCrlf(line + CRLF) == Some(|line|)
    requires !AllHex(line)
    ensures Feed(st, EncodeData(chunks) + line + CRLF + rest).1 == -1
    ensures Feed(st, EncodeData(chunks) + line + CRLF + rest).0.error
  {
    var tail := line + CRLF + rest;
    var buf := EncodeData(chunks) + tail;
    assert EncodeData(chunks) + line + CRLF + rest == buf;
    if st.error {
      ErrorIsSticky(st, buf);
    } else {
      FeedDataChunks(st, chunks, tail);
      BadSizeLineAtFront(st.result + Payload(chunks), line, rest);
    }
  }

  /** From a processor between chunks, good data chunks in a push are decoded before the rest is read. */
  lemma FeedDataChunks(st: ChunkState, chunks: seq<Chunk>, tail: string)
    requires WellFormed(st) && st.size == -1 && st.buffer == "" && !st.error
    requires forall i :: 0 <= i < |chunks| ==> ValidChunk(chunks[i])
    ensures Feed(st, EncodeData(chunks) + tail) == Run(ChunkState(st.result + Payload(chunks), tail, -1, -1, false))
  {
    var buf := EncodeData(chunks) + tail;
    var s1 := st.(buffer := buf);
    assert st.buffer + buf == buf;
    assert Feed(st, buf) == Run(s1);
    RunIgnoresSizeSize(s1);
    assert s1.(sizeSize := -1) == ChunkState(st.result, buf, -1, -1, false);
    RunDataChunks(st.result, chunks, tail);
  }

  /** A non-hex size line at the front of the buffer is rejected. */
  lemma BadSizeLineAtFront(r: string, line: string, rest: string)
    requires FindCrlf(line + CRLF) == Some(|line|)
    requires !AllHex(line)
    ensures Run(ChunkState(r, line + CRLF + rest, -1, -1, false)).1 == -1
    ensures Run(ChunkState(r, line + CRLF + rest, -1, -1, false)).0.error
  {
    var st := ChunkState(r, line + CRLF + rest, -1, -1, false);
    FirstCrlfStays(line, rest);
    FirstCrlfLine(st, line, rest);
  }

  /** A size line that ends at the first CR LF (it may hold a lone '\r') is the one parsed. */
  lemma FirstCrlfLine(st: ChunkState, line: string, rest: string)
    requires st.buffer == line + CRLF + rest
    requires FindCrlf(st.buffer) == Some(|line|)
    ensures ParseSize(st).sizeSize == |line|
    ensures ParseSize(st).size == if AllHex(line) then HexValue(line) else -1
    ensures ParseSize(st).error == (st.error || !AllHex(line))
  {
    assert st.buffer[..|line|] == line;
  }

  lemma FirstCrlfStays(line: string, rest: string)
    requires FindCrlf(line + CRLF) == Some(|line|)
    ensures FindCrlf(line + CRLF + rest) == Some(|line|)
  {
    FindCrlfAppend(line + CRLF, rest);
  }

  /** A chunk at the front of the buffer whose payload is not followed by CR LF is rejected. */
  lemma {:induction false} MissingCrlfAtFront(r: string, line: string, data: string, x: string, rest: string)
    requires AllHex(line) && HexValue(line) == |data|
    requires |x| == 2 && x != CRLF
    ensures Run(ChunkState(r, line + CRLF + data + x + rest, -1, -1, false)).1 == -1
  {
    var buf := line + CRLF + data + x + rest;
    var st := ChunkState(r, buf, -1, -1, false);
    assert buf == line + CRLF + (data + x + rest);
    ParseSizeLine(st, line, data + x + rest);
    var st1 := ChunkState(r, buf, |data|, |line|, false);
    assert Run(st) == Run(st1);
    var stop := |line| + 2 + |data|;
    assert buf[stop..stop + 2] == x;
  }

  /**
   * A chunk whose payload is not followed by CR LF makes `push` answer -1, also when good
   * chunks come before it in the same push, and from any processor that is between chunks.
   */
  lemma {:induction false} MissingCrlfAfterDataRejected(
      st: ChunkState, chunks: seq<Chunk>, line: string, data: string, x: string, rest: string)
    requires WellFormed(st) && st.size == -1 && st.buffer == ""
    requires forall i :: 0 <= i < |chunks| ==> ValidChunk(chunks[i])
    requires AllHex(line) && HexValue(line) == |data|
    requires |x| == 2 && x != CRLF
    ensures Feed(st, EncodeData(chunks) + line + CRLF + data + x + rest).1 == -1
  {
    var tail := line + CRLF + data + x + rest;
    var buf := EncodeData(chunks) + tail;
    assert EncodeData(chunks) + line + CRLF + data + x + rest == buf;
    if st.error {
      ErrorIsSticky(st, buf);
    } else {
      FeedDataChunks(st, chunks, tail);
      MissingCrlfAtFront(st.result + Payload(chunks), line, data, x, rest);
    }
  }
}
