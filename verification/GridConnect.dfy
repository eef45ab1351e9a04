/** The GridConnect text form of CAN frames (src/utils/gc_format.cpp), and the parser
    that finds frames in a stream of bytes (src/utils/GcStreamParser.cpp). */
module GridConnect {
  import opened Options

  /** The frame fields that the text form carries. */
  datatype CanFrame = CanFrame(eff: bool, rtr: bool, id: nat, data: seq<nat>)

  predicate Valid(f: CanFrame) {
    && f.id < (if f.eff then 0x2000_0000 else 0x800)
    && |f.data| <= 8 && forall i | 0 <= i < |f.data| :: f.data[i] < 256
  }

  function NibbleToAscii(nibble: nat): (c: char)
    ensures c != ':' && c != ';' && c != '\0' && c != 'N' && c != 'R'
  {
    var n := nibble % 16;
    if n < 10 then '0' + n as char else 'A' + (n - 10) as char
  }

  /** The value of a hex digit of either case, or -1. */
  function AsciiToNibble(c: char): (n: int)
    ensures -1 <= n < 16
  {
    if '0' <= c <= '9' then c as int - '0' as int
    else if 'A' <= c <= 'F' then c as int - 'A' as int + 10
    else if 'a' <= c <= 'f' then c as int - 'a' as int + 10
    else -1
  }

  // ---------------------------------------------------------------------
  // Printing

  /** `id >> (4 * n)`. */
  function Shr(id: nat, n: nat): nat { if n == 0 then id else Shr(id, n - 1) / 16 }

  /** The lowest `n` hex digits of `id`, highest first. */
  function Digits(id: nat, n: nat): string {
    if n == 0 then "" else [NibbleToAscii(Shr(id, n - 1))] + Digits(id, n - 1)
  }

  function Bytes(data: seq<nat>): string {
    if data == [] then "" else [NibbleToAscii(data[0] / 16), NibbleToAscii(data[0])] + Bytes(data[1..])
  }

  /** What stands between the colon and the semicolon. */
  function Body(f: CanFrame): string {
    (if f.eff then "X" + Digits(f.id, 8) else "S" + Digits(f.id, 3)) + (if f.rtr then "R" else "N") + Bytes(f.data)
  }

  function Text(f: CanFrame): string { ":" + Body(f) + ";" }

  function Doubled(s: string): string { if s == "" then "" else [s[0], s[0]] + Doubled(s[1..]) }

  /** One call of `output`. */
  function Output(c: char, doubleFormat: bool): string { if doubleFormat then [c, c] else [c] }

  function Printed(s: string, doubleFormat: bool): string { if doubleFormat then Doubled(s) else s }

  lemma {:induction false} PrintedAppend(s: string, c: char, doubleFormat: bool)
    ensures Printed(s + [c], doubleFormat) == Printed(s, doubleFormat) + Output(c, doubleFormat)
  {
    if doubleFormat {
      if s == "" {
        assert s + [c] == [c] && [c][1..] == "";
        assert Doubled([c]) == [c, c] + Doubled("");
      } else {
        PrintedAppend(s[1..], c, doubleFormat);
        assert (s + [c])[1..] == s[1..] + [c];
      }
    }
  }

  method GcFormatGenerate(f: CanFrame, doubleFormat: bool, newlines: bool) returns (buf: string)
    requires Valid(f)
    ensures buf == Printed((if doubleFormat then "!" else ":") + Body(f) + ";" + (if newlines then "\n" else ""), doubleFormat)
  {
    hide Printed, Output, Digits, Bytes, Shr;
    ghost var first := if doubleFormat then "!" else ":";
    ghost var out := first;
    FirstPrinted(doubleFormat);
    if doubleFormat {
      buf := Output('!', doubleFormat);
    } else {
      buf := Output(':', doubleFormat);
    }
    var kind, offset := 'S', 8;
    if f.eff {
      kind, offset := 'X', 28;
    }
    PrintedAppend(out, kind, doubleFormat);
    buf, out := buf + Output(kind, doubleFormat), out + [kind];
    ghost var digits := offset / 4 + 1;
    ghost var head := out;
    DigitsStep(f.id);
    while offset >= 0
      invariant -4 <= offset && offset % 4 == 0
      invariant buf == Printed(out, doubleFormat) && out + Digits(f.id, offset / 4 + 1) == head + Digits(f.id, digits)
      decreases offset
    {
      var c := NibbleToAscii(Shr(f.id, offset / 4));
      PrintedAppend(out, c, doubleFormat);
      buf, out := buf + Output(c, doubleFormat), out + [c];
      offset := offset - 4;
    }
    assert offset == -4 && out + Digits(f.id, 0) == out;
    assert out == first + ([kind] + Digits(f.id, digits));
    var r := if f.rtr then 'R' else 'N';
    PrintedAppend(out, r, doubleFormat);
    buf, out := buf + Output(r, doubleFormat), out + [r];
    ghost var before := out;
    BytesStep();
    for i := 0 to |f.data|
      invariant buf == Printed(out, doubleFormat) && out + Bytes(f.data[i..]) == before + Bytes(f.data)
    {
      var hi, lo := NibbleToAscii(f.data[i] / 16), NibbleToAscii(f.data[i] % 16);
      assert lo == NibbleToAscii(f.data[i]);
      PrintedAppend(out, hi, doubleFormat);
      PrintedAppend(out + [hi], lo, doubleFormat);
      buf, out := buf + Output(hi, doubleFormat) + Output(lo, doubleFormat), out + [hi] + [lo];
    }
    assert f.data[|f.data|..] == [] && f.data[0..] == f.data && out + Bytes([]) == out;
    assert before == first + ([kind] + Digits(f.id, digits) + [r]);
    assert out == first + Body(f);
    PrintedAppend(out, ';', doubleFormat);
    buf, out := buf + Output(';', doubleFormat), out + [';'];
    if newlines {
      PrintedAppend(out, '\n', doubleFormat);
      buf, out := buf + Output('\n', doubleFormat), out + ['\n'];
    }
    assert out == first + Body(f) + ";" + (if newlines then "\n" else "");
  }

  lemma FirstPrinted(doubleFormat: bool)
    ensures Printed("!", doubleFormat) == Output('!', doubleFormat)
    ensures Printed(":", doubleFormat) == Output(':', doubleFormat)
  {}

  lemma DigitsStep(id: nat)
    ensures forall n: nat | n > 0 :: Digits(id, n) == [NibbleToAscii(Shr(id, n - 1))] + Digits(id, n - 1)
    ensures Digits(id, 0) == ""
  {}

  lemma BytesStep()
    ensures forall d: seq<nat>, i: nat | i < |d| ::
      Bytes(d[i..]) == [NibbleToAscii(d[i] / 16), NibbleToAscii(d[i])] + Bytes(d[i + 1..])
    ensures Bytes([]) == ""
  {
    forall d: seq<nat>, i: nat | i < |d|
      ensures Bytes(d[i..]) == [NibbleToAscii(d[i] / 16), NibbleToAscii(d[i])] + Bytes(d[i + 1..])
    {
      assert d[i..][1..] == d[i + 1..];
    }
  }

  // ---------------------------------------------------------------------
  // Parsing

  /** The identifier: hex digits up to an N or an R. Gives the value, whether it was an
      R, and what follows. */
  function ParseId(s: string, id: nat): Option<(nat, bool, string)> {
    if s == "" then None
    else if AsciiToNibble(s[0]) >= 0 then ParseId(s[1..], (id * 16 + AsciiToNibble(s[0])) % 0x1_0000_0000)
    else if s[0] == 'N' then Some((id, false, s[1..]))
    else if s[0] == 'R' then Some((id, true, s[1..]))
    else None
  }

  /** Pairs of hex digits up to a semicolon or the end. */
  function ParseData(s: string): Option<seq<nat>> {
    if s == "" || s[0] == ';' then Some([])
    else if |s| == 1 || AsciiToNibble(s[0]) < 0 || AsciiToNibble(s[1]) < 0 then None
    else
      var rest := ParseData(s[2..]);
      if rest.None? then None else Some([AsciiToNibble(s[0]) * 16 + AsciiToNibble(s[1])] + rest.value)
  }

  function Parse(text: string): Option<CanFrame> {
    var s := if text != "" && text[0] == ':' then text[1..] else text;
    if s == "" || (s[0] != 'X' && s[0] != 'S') then None
    else
      var eff := s[0] == 'X';
      var id := ParseId(s[1..], 0);
      if id.None? then None
      else
        var data := ParseData(id.value.2);
        if data.None? then None
        else Some(CanFrame(eff, id.value.1, id.value.0 % (if eff then 0x2000_0000 else 0x800), data.value))
  }

  /** What follows the N or the R. */
  function DataPart(text: string): Option<string> {
    var s := if text != "" && text[0] == ':' then text[1..] else text;
    if s == "" || (s[0] != 'X' && s[0] != 'S') then None
    else
      var id := ParseId(s[1..], 0);
      if id.None? then None else Some(id.value.2)
  }

  /** How many pairs of hex digits come before anything else. */
  function Pairs(s: string): nat {
    if |s| < 2 || AsciiToNibble(s[0]) < 0 || AsciiToNibble(s[1]) < 0 then 0 else 1 + Pairs(s[2..])
  }

  /** How many data bytes the parser writes into the frame, whether it then finds an
      error or not. */
  function Stored(text: string): nat {
    if DataPart(text).None? then 0 else Pairs(DataPart(text).value)
  }

  /** The characters of a buffer up to the first NUL. */
  function CStr(buf: string): (s: string)
    ensures |s| <= |buf| && s == buf[..|s|] && '\0' !in s && (|s| < |buf| ==> buf[|s|] == '\0')
  {
    if buf == "" || buf[0] == '\0' then "" else [buf[0]] + CStr(buf[1..])
  }

  /** The parser proper, on a buffer that ends in a NUL somewhere. */
  method GcFormatParse(cbuf: string) returns (frame: Option<CanFrame>, stored: nat)
    requires '\0' in cbuf
    ensures frame == Parse(CStr(cbuf)) && stored == Stored(CStr(cbuf))
  {
    hide CStr, ParseId, ParseData, Pairs;
    stored := 0;
    ghost var s := CStr(cbuf);
    assert |s| < |cbuf|;
    var buf := 0;
    if cbuf[buf] == ':' {
      buf := buf + 1;
    }
    var eff;
    if cbuf[buf] == 'X' {
      eff := true;
    } else if cbuf[buf] == 'S' {
      eff := false;
    } else {
      return None, stored;
    }
    buf := buf + 1;
    ghost var t := if s != "" && s[0] == ':' then s[1..] else s;
    assert t != "" && t[1..] == s[buf..];
    var id: nat, rtr := 0, false;
    ghost var idPart := ParseId(s[buf..], 0);
    while true
      invariant buf <= |s| && idPart == ParseId(s[buf..], id)
      decreases |s| - buf
    {
      ParseIdStep(s, buf, id);
      var nibble := AsciiToNibble(cbuf[buf]);
      if nibble >= 0 {
        id := (id * 16 + nibble) % 0x1_0000_0000;
        buf := buf + 1;
      } else if cbuf[buf] == 'N' {
        rtr := false;
        buf := buf + 1;
        break;
      } else if cbuf[buf] == 'R' {
        rtr := true;
        buf := buf + 1;
        break;
      } else {
        return None, stored;
      }
    }
    id := if eff then id % 0x2000_0000 else id % 0x800;
    var data: seq<nat> := [];
    ghost var pairs := Pairs(s[buf..]);
    ghost var dataPart := ParseData(s[buf..]);
    assert idPart == Some((idPart.value.0, rtr, s[buf..]));
    PrependNothing(dataPart);
    while cbuf[buf] != '\0' && cbuf[buf] != ';'
      invariant buf <= |s|
      invariant dataPart == Prepend(data, ParseData(s[buf..])) && pairs == stored + Pairs(s[buf..])
      decreases |s| - buf
    {
      ParseDataStep(s, buf);
      PairsStep(s, buf);
      var nh, nl := AsciiToNibble(cbuf[buf]), AsciiToNibble(cbuf[buf + 1]);
      if nh < 0 || nl < 0 {
        assert dataPart == None;
        return None, stored;
      }
      PrependMore(data, nh * 16 + nl, ParseData(s[buf + 2..]));
      buf := buf + 2;
      data := data + [nh * 16 + nl];
      stored := stored + 1;
    }
    ParseDataEnd(s, buf);
    PairsEnd(s, buf);
    assert data + [] == data;
    frame := Some(CanFrame(eff, rtr, id, data));
  }

  function Prepend(data: seq<nat>, rest: Option<seq<nat>>): Option<seq<nat>> {
    if rest.None? then None else Some(data + rest.value)
  }

  lemma PrependNothing(rest: Option<seq<nat>>)
    ensures Prepend([], rest) == rest
  {
    assert rest.Some? ==> [] + rest.value == rest.value;
  }

  lemma PrependMore(data: seq<nat>, b: nat, rest: Option<seq<nat>>)
    ensures Prepend(data, Prepend([b], rest)) == Prepend(data + [b], rest)
  {
    assert rest.Some? ==> data + ([b] + rest.value) == data + [b] + rest.value;
  }

  lemma ParseIdStep(s: string, i: nat, id: nat)
    requires i <= |s|
    ensures ParseId(s[i..], id)
      == if i == |s| then None
         else if AsciiToNibble(s[i]) >= 0 then ParseId(s[i + 1..], (id * 16 + AsciiToNibble(s[i])) % 0x1_0000_0000)
         else if s[i] == 'N' then Some((id, false, s[i + 1..]))
         else if s[i] == 'R' then Some((id, true, s[i + 1..])) else None
  {
    if i < |s| { assert s[i..][1..] == s[i + 1..]; }
  }

  lemma ParseDataStep(s: string, i: nat)
    requires i < |s| && s[i] != ';'
    ensures ParseData(s[i..])
      == if i + 1 == |s| || AsciiToNibble(s[i]) < 0 || AsciiToNibble(s[i + 1]) < 0 then None
         else Prepend([AsciiToNibble(s[i]) * 16 + AsciiToNibble(s[i + 1])], ParseData(s[i + 2..]))
  {
    if i + 1 < |s| { assert s[i..][2..] == s[i + 2..]; }
  }

  lemma PairsStep(s: string, i: nat)
    requires i < |s| && s[i] != ';'
    ensures Pairs(s[i..])
      == if i + 1 == |s| || AsciiToNibble(s[i]) < 0 || AsciiToNibble(s[i + 1]) < 0 then 0 else 1 + Pairs(s[i + 2..])
  {
    if i + 1 < |s| { assert s[i..][2..] == s[i + 2..]; }
  }

  lemma PairsEnd(s: string, i: nat)
    requires i <= |s| && (i < |s| ==> s[i] == ';')
    ensures Pairs(s[i..]) == 0
  {}

  lemma ParseDataEnd(s: string, i: nat)
    requires i <= |s| && (i < |s| ==> s[i] == ';')
    ensures ParseData(s[i..]) == Some([])
  {}

  // ---------------------------------------------------------------------
  // What is printed is read back

  lemma {:induction false} IdReadsBack(id: nat, n: nat, rest: string)
    requires id < 0x1_0000_0000
    ensures ParseId(Digits(id, n) + rest, Shr(id, n)) == ParseId(rest, id)
  {
    hide Digits, Shr, NibbleToAscii, AsciiToNibble, ParseId;
    DigitsSplit(id, n, rest);
    if n > 0 {
      ShrFits(id, n - 1);
      ShrStep(id, n);
      NibbleOf(Shr(id, n - 1));
      ParseHex(Digits(id, n) + rest, Shr(id, n));
      IdReadsBack(id, n - 1, rest);
    }
  }

  lemma DigitsSplit(id: nat, n: nat, rest: string)
    ensures n == 0 ==> Digits(id, n) + rest == rest && Shr(id, n) == id
    ensures n > 0 ==> var s := Digits(id, n) + rest;
      s != "" && s[0] == NibbleToAscii(Shr(id, n - 1)) && s[1..] == Digits(id, n - 1) + rest
  {
    hide NibbleToAscii;
    if n > 0 {
      FirstOf(NibbleToAscii(Shr(id, n - 1)), Digits(id, n - 1), rest);
    }
  }

  lemma FirstOf(c: char, s: string, rest: string)
    ensures [c] + s + rest == [c] + (s + rest) && ([c] + s + rest)[1..] == s + rest
  {}

  lemma ParseHex(s: string, id: nat)
    requires s != "" && AsciiToNibble(s[0]) >= 0 && id * 16 + AsciiToNibble(s[0]) < 0x1_0000_0000
    ensures ParseId(s, id) == ParseId(s[1..], id * 16 + AsciiToNibble(s[0]))
  {
    hide AsciiToNibble;
  }

  lemma ShrStep(id: nat, n: nat)
    requires n > 0
    ensures Shr(id, n) * 16 + Shr(id, n - 1) % 16 == Shr(id, n - 1)
  {}

  lemma NibbleOf(x: nat)
    ensures AsciiToNibble(NibbleToAscii(x)) == x % 16
  {}

  lemma {:induction false} ShrFits(id: nat, n: nat)
    ensures Shr(id, n) <= id
  {
    if n > 0 { ShrFits(id, n - 1); }
  }

  lemma {:induction false} DataReadsBack(data: seq<nat>, rest: string)
    requires forall i | 0 <= i < |data| :: data[i] < 256
    requires rest == "" || rest[0] == ';'
    ensures ParseData(Bytes(data) + rest) == Some(data)
  {
    hide NibbleToAscii, AsciiToNibble, ParseData;
    if data == [] {
      assert Bytes(data) + rest == rest;
      ParseDataEnd(rest, 0);
      assert rest[0..] == rest;
    } else {
      var b := data[0];
      NibbleOf(b / 16);
      NibbleOf(b);
      assert Bytes(data) + rest == [NibbleToAscii(b / 16), NibbleToAscii(b)] + (Bytes(data[1..]) + rest);
      DataReadsBack(data[1..], rest);
      ParsePair(b, Bytes(data[1..]) + rest);
      assert data == [b] + data[1..];
    }
  }

  lemma ParsePair(b: nat, more: string)
    requires b < 256 && ParseData(more).Some?
    ensures ParseData([NibbleToAscii(b / 16), NibbleToAscii(b)] + more) == Some([b] + ParseData(more).value)
  {
    hide NibbleToAscii, AsciiToNibble;
    NibbleOf(b / 16);
    NibbleOf(b);
    assert ([NibbleToAscii(b / 16), NibbleToAscii(b)] + more)[2..] == more;
  }

  /** Parsing the printed text, with or without the colon and with or without the
      semicolon, gives the frame back. */
  lemma ReadsBack(f: CanFrame, tail: string)
    requires Valid(f) && (tail == "" || tail[0] == ';')
    ensures Parse(Body(f) + tail) == Some(f)
    ensures Parse(":" + Body(f) + tail) == Some(f)
  {
    hide Digits, Bytes, ParseId, ParseData, NibbleToAscii, AsciiToNibble;
    var n := if f.eff then 8 else 3;
    var after := Bytes(f.data) + tail;
    var idText := (if f.rtr then "R" else "N") + after;
    NoDigitsAbove(f.id, n);
    IdReadsBack(f.id, n, idText);
    IdEnds(f.rtr, after, f.id);
    DataReadsBack(f.data, tail);
    var s := Body(f) + tail;
    assert s == [if f.eff then 'X' else 'S'] + (Digits(f.id, n) + idText);
    assert s[1..] == Digits(f.id, n) + idText;
    assert (":" + Body(f) + tail)[1..] == s;
  }

  lemma NoDigitsAbove(id: nat, n: nat)
    requires (n == 8 && id < 0x1_0000_0000) || (n == 3 && id < 0x1000)
    ensures Shr(id, n) == 0
  {
    assert Shr(id, 1) == id / 16;
    assert Shr(id, 2) == Shr(id, 1) / 16;
    assert Shr(id, 3) == Shr(id, 2) / 16;
    assert Shr(id, 4) == Shr(id, 3) / 16;
    assert Shr(id, 5) == Shr(id, 4) / 16;
    assert Shr(id, 6) == Shr(id, 5) / 16;
    assert Shr(id, 7) == Shr(id, 6) / 16;
  }

  lemma IdEnds(rtr: bool, after: string, id: nat)
    ensures ParseId((if rtr then "R" else "N") + after, id) == Some((id, rtr, after))
  {
    assert ((if rtr then "R" else "N") + after)[1..] == after;
  }

  // ---------------------------------------------------------------------
  // Room for the data bytes

  predicate AllHex(s: string) { forall i | 0 <= i < |s| :: AsciiToNibble(s[i]) >= 0 }

  lemma {:induction false} PairsFit(s: string, n: nat)
    ensures Pairs(s) <= n <==> !(|s| >= 2 * n + 2 && AllHex(s[..2 * n + 2]))
  {
    hide AsciiToNibble;
    if |s| >= 2 && n > 0 {
      PairsFit(s[2..], n - 1);
      if |s| >= 2 * n + 2 {
        assert s[..2 * n + 2] == s[..2] + s[2..][..2 * n];
      }
    }
  }

  /** The writes stay inside the eight bytes of a frame if and only if what follows the N
      or the R does not begin with 18 hex digits. */
  lemma StoresFit(text: string)
    ensures Stored(text) <= 8
      <==> !(DataPart(text).Some? && |DataPart(text).value| >= 18 && AllHex(DataPart(text).value[..18]))
  {
    hide AllHex, Pairs;
    if DataPart(text).Some? { PairsFit(DataPart(text).value, 8); }
  }

  /** A frame that parses has all its bytes stored; so printed frames always fit. */
  lemma StoredIsData(text: string)
    ensures Parse(text).Some? ==> Stored(text) == |Parse(text).value.data|
  {
    hide ParseId;
    if DataPart(text).Some? { PairsAreData(DataPart(text).value); }
  }

  lemma {:induction false} PairsAreData(s: string)
    ensures ParseData(s).Some? ==> Pairs(s) == |ParseData(s).value|
  {
    if |s| >= 2 && s[0] != ';' { PairsAreData(s[2..]); }
  }

  /** A frame with identifier 0, and `n` data bytes of 0. */
  function LongText(n: nat): string { "XN" + seq(2 * n, _ => '0') }

  /** The stream parser completes texts that store `n` bytes; nine already do not fit. */
  lemma LongTextStores(n: nat)
    requires n <= 14
    ensures Feed(Idle, ":" + LongText(n) + ";") == (Idle, [LongText(n)])
    ensures Parse(LongText(n)).Some? && Stored(LongText(n)) == n
  {
    hide Feed, ParseData;
    TextCollected(Idle, LongText(n));
    var zeros := seq(2 * n, _ => '0');
    assert LongText(n)[1..] == "N" + zeros && ("N" + zeros)[1..] == zeros;
    PairsOfZeros(zeros);
    StoredIsData(LongText(n));
  }

  lemma {:induction false} PairsOfZeros(s: string)
    requires |s| % 2 == 0 && forall i | 0 <= i < |s| :: s[i] == '0'
    ensures ParseData(s).Some? && |ParseData(s).value| == |s| / 2
  {
    if s != "" { PairsOfZeros(s[2..]); }
  }

  // ---------------------------------------------------------------------
  // The stream parser

  const CBUF_SIZE := 32

  /** Between frames, or inside one with this much of it seen. */
  datatype StreamState = Idle | Collecting(text: string)

  /** One byte: the next state, and the text of the frame that it completes. */
  function Consume(st: StreamState, c: char): (StreamState, Option<string>) {
    if c == ':' then (Collecting(""), None)
    else if st.Idle? then (Idle, None)
    else if c == ';' then (Idle, Some(st.text))
    else if |st.text| >= CBUF_SIZE - 1 then (Idle, None)
    else (Collecting(st.text + [c]), None)
  }

  class GcStreamParser {
    const cbuf: array<char>
    var offset: int

    ghost predicate Valid()
      reads this
    {
      cbuf.Length == CBUF_SIZE && -1 <= offset < CBUF_SIZE
    }

    ghost function State(): StreamState
      requires Valid()
      reads this, cbuf
    {
      if offset < 0 then Idle else Collecting(cbuf[..offset])
    }

    constructor ()
      ensures Valid() && State() == Idle && fresh(cbuf)
    {
      cbuf := new char[CBUF_SIZE];
      offset := -1;
    }

    method ConsumeByte(c: char) returns (complete: bool)
      requires Valid()
      modifies this, cbuf
      ensures Valid() && State() == Consume(old(State()), c).0
      ensures complete == Consume(old(State()), c).1.Some?
      ensures complete ==> Terminated(cbuf[..], Consume(old(State()), c).1.value)
    {
      if c == ':' {
        offset := 0;
        return false;
      }
      if c == ';' {
        if offset < 0 {
          return false;
        }
        cbuf[offset] := '\0';
        offset := -1;
        return true;
      }
      if offset >= CBUF_SIZE - 1 {
        offset := -1;
        return false;
      }
      if offset >= 0 {
        cbuf[offset] := c;
        offset := offset + 1;
      }
      return false;
    }

    /** Parses the buffer after a frame was completed. */
    method ParseFrameToOutput(ghost text: string) returns (frame: Option<CanFrame>, stored: nat)
      requires Valid() && Terminated(cbuf[..], text)
      ensures frame == Parse(CStr(text)) && stored == Stored(CStr(text))
    {
      CStrOfPrefix(text, cbuf[..]);
      assert cbuf[..][|text|] == '\0';
      frame, stored := GcFormatParse(cbuf[..]);
    }
  }

  /** The buffer holds `text`, and a NUL after it. */
  predicate Terminated(buf: string, text: string) {
    |text| < |buf| && buf[..|text|] == text && buf[|text|] == '\0'
  }

  lemma {:induction false} CStrOfPrefix(text: string, buf: string)
    requires Terminated(buf, text)
    ensures CStr(buf) == CStr(text)
  {
    if text == "" || text[0] == '\0' {
    } else {
      assert buf[0] == text[0] && buf[1..][..|text| - 1] == text[1..];
      CStrOfPrefix(text[1..], buf[1..]);
    }
  }

  /** A whole stream: the state after it, and all the texts completed. */
  function Feed(st: StreamState, s: string): (StreamState, seq<string>)
    decreases |s|
  {
    if s == "" then (st, [])
    else
      var (end, rest) := Feed(Consume(st, s[0]).0, s[1..]);
      (end, Completed(st, s[0]) + rest)
  }

  function Completed(st: StreamState, c: char): seq<string> {
    if Consume(st, c).1.Some? then [Consume(st, c).1.value] else []
  }

  lemma FeedNothing(st: StreamState)
    ensures Feed(st, "") == (st, [])
  {}

  lemma FeedStep(st: StreamState, s: string)
    requires s != ""
    ensures Feed(st, s).0 == Feed(Consume(st, s[0]).0, s[1..]).0
    ensures Feed(st, s).1 == Completed(st, s[0]) + Feed(Consume(st, s[0]).0, s[1..]).1
  {}

  lemma {:induction false} FeedAppend(st: StreamState, a: string, b: string)
    ensures Feed(st, a + b)
      == (Feed(Feed(st, a).0, b).0, Feed(st, a).1 + Feed(Feed(st, a).0, b).1)
    decreases |a|
  {
    hide Feed, Consume, Completed;
    if a == "" {
      assert a + b == b;
      FeedNothing(st);
      assert [] + Feed(st, b).1 == Feed(st, b).1;
    } else {
      assert (a + b)[1..] == a[1..] + b;
      FeedAppend(Consume(st, a[0]).0, a[1..], b);
      FeedStep(st, a + b);
      FeedStep(st, a);
      var next := Consume(st, a[0]).0;
      var x, y := Feed(next, a[1..]).1, Feed(Feed(st, a).0, b).1;
      assert Completed(st, a[0]) + (x + y) == Completed(st, a[0]) + x + y;
    }
  }

  /** Frames, each followed by bytes that are not colons. */
  function Stream(frames: seq<CanFrame>, gaps: seq<string>): string
    requires |frames| == |gaps|
  {
    if frames == [] then "" else Text(frames[0]) + gaps[0] + Stream(frames[1..], gaps[1..])
  }

  function Bodies(frames: seq<CanFrame>): seq<string> {
    if frames == [] then [] else [Body(frames[0])] + Bodies(frames[1..])
  }

  /** What comes before the first semicolon, or all. */
  function Before(s: string): (t: string)
    ensures |t| <= |s| && t == s[..|t|] && ';' !in t && (|t| < |s| ==> s[|t|] == ';')
  {
    if s == "" || s[0] == ';' then "" else [s[0]] + Before(s[1..])
  }

  /** The bytes before the first frame can complete one text, of what the parser had
      collected before: if they have a semicolon, and it comes before the buffer is full. */
  function Leftover(st: StreamState, garbage: string): seq<string> {
    if st.Collecting? && |Before(garbage)| < |garbage| && |st.text| + |Before(garbage)| < 32
    then [st.text + Before(garbage)] else []
  }

  lemma NothingBefore(st: StreamState)
    ensures Before("") == "" && Leftover(st, "") == []
  {}

  lemma LeftoverStep(st: StreamState, s: string)
    requires s != "" && s[0] != ':' && (st.Collecting? ==> |st.text| < CBUF_SIZE)
    ensures var next := Consume(st, s[0]).0;
      && Leftover(st, s) == Completed(st, s[0]) + Leftover(next, s[1..])
      && (next.Collecting? ==> |next.text| < CBUF_SIZE && st.Collecting?)
    ensures |Before(s)| < |s| <==> s[0] == ';' || |Before(s[1..])| < |s[1..]|
  {
    assert s[0] != ';' ==> Before(s) == [s[0]] + Before(s[1..]);
    assert st.Collecting? && s[0] != ';' ==> st.text + [s[0]] + Before(s[1..]) == st.text + Before(s);
    if st.Collecting? {
      assert st.text + "" == st.text;
      if s[0] == ';' {
        assert Leftover(st, s) == [st.text] == [st.text] + [];
      } else {
        assert [] + Leftover(Consume(st, s[0]).0, s[1..]) == Leftover(Consume(st, s[0]).0, s[1..]);
      }
    }
  }

  lemma {:induction false} GarbageCompletes(st: StreamState, garbage: string)
    requires ':' !in garbage && (st.Collecting? ==> |st.text| < CBUF_SIZE)
    ensures Feed(st, garbage).1 == Leftover(st, garbage)
    ensures st.Idle? || |Before(garbage)| < |garbage| ==> Feed(st, garbage).0 == Idle
    decreases |garbage|
  {
    hide Feed, Before, Leftover;
    if garbage == "" {
      FeedNothing(st);
      NothingBefore(st);
    } else {
      FeedStep(st, garbage);
      GarbageCompletes(Consume(st, garbage[0]).0, garbage[1..]);
      LeftoverStep(st, garbage);
    }
  }

  lemma {:induction false} BodyCollected(text: string, more: string)
    requires ':' !in more && ';' !in more && |text| + |more| < CBUF_SIZE
    ensures Feed(Collecting(text), more) == (Collecting(text + more), [])
    decreases |more|
  {
    hide Feed;
    if more == "" {
      assert text + more == text;
      FeedNothing(Collecting(text));
    } else {
      FeedStep(Collecting(text), more);
      assert Completed(Collecting(text), more[0]) == [];
      BodyCollected(text + [more[0]], more[1..]);
      assert text + [more[0]] + more[1..] == text + more;
    }
  }

  lemma BodyShape(f: CanFrame)
    requires Valid(f)
    ensures |Body(f)| <= 26 && ':' !in Body(f) && ';' !in Body(f) && '\0' !in Body(f)
  {
    DigitsShape(f.id, 8);
    DigitsShape(f.id, 3);
    BytesShape(f.data);
    hide Digits, Bytes;
  }

  lemma {:induction false} DigitsShape(id: nat, n: nat)
    ensures |Digits(id, n)| == n && ':' !in Digits(id, n) && ';' !in Digits(id, n) && '\0' !in Digits(id, n)
  {
    hide NibbleToAscii, Shr;
    if n > 0 { DigitsShape(id, n - 1); }
  }

  lemma {:induction false} BytesShape(data: seq<nat>)
    ensures |Bytes(data)| == 2 * |data| && ':' !in Bytes(data) && ';' !in Bytes(data) && '\0' !in Bytes(data)
  {
    hide NibbleToAscii;
    if data != [] { BytesShape(data[1..]); }
  }

  /** A frame text is completed from every state. */
  lemma TextCompletes(st: StreamState, f: CanFrame)
    requires Valid(f)
    ensures Feed(st, Text(f)) == (Idle, [Body(f)])
  {
    hide Body, Feed;
    BodyShape(f);
    TextCollected(st, Body(f));
    assert Text(f) == ":" + Body(f) + ";";
  }

  lemma TextCollected(st: StreamState, text: string)
    requires ':' !in text && ';' !in text && |text| < CBUF_SIZE
    ensures Feed(st, ":" + text + ";") == (Idle, [text])
  {
    hide Feed;
    BodyCollected("", text);
    assert "" + text == text;
    FeedAppend(st, ":", text + ";");
    FeedAppend(Collecting(""), text, ";");
    assert ":" + text + ";" == ":" + (text + ";");
    FeedOne(st, ':');
    FeedOne(Collecting(text), ';');
    assert [] + ([] + [text]) == [text];
  }

  lemma FeedOne(st: StreamState, c: char)
    ensures Feed(st, [c]) == (Consume(st, c).0, Completed(st, c))
  {
    hide Feed, Consume;
    assert Completed(st, c) + [] == Completed(st, c);
    FeedStep(st, [c]);
    assert [c][1..] == "";
    FeedNothing(Consume(st, c).0);
  }

  lemma {:induction false} FramesComplete(frames: seq<CanFrame>, gaps: seq<string>)
    requires |frames| == |gaps|
    requires forall f | f in frames :: Valid(f)
    requires forall g | g in gaps :: ':' !in g
    ensures Feed(Idle, Stream(frames, gaps)) == (Idle, Bodies(frames))
  {
    hide Feed, Text, Valid, Body, Before, Consume;
    if frames == [] {
      FeedNothing(Idle);
    } else {
      var rest := Stream(frames[1..], gaps[1..]);
      assert frames[0] in frames && gaps[0] in gaps;
      TextCompletes(Idle, frames[0]);
      GarbageCompletes(Idle, gaps[0]);
      FramesComplete(frames[1..], gaps[1..]);
      FeedAppend(Idle, Text(frames[0]) + gaps[0], rest);
      FeedAppend(Idle, Text(frames[0]), gaps[0]);
      assert Leftover(Idle, gaps[0]) == [] && [Body(frames[0])] + [] == [Body(frames[0])];
    }
  }

  /** From any state: garbage, then frames with garbage after each. Exactly the frames are
      completed, in order, after at most one leftover of what came before. */
  lemma Resynchronises(st: StreamState, garbage: string, frames: seq<CanFrame>, gaps: seq<string>)
    requires st.Collecting? ==> |st.text| < CBUF_SIZE
    requires |frames| == |gaps| && ':' !in garbage
    requires forall f | f in frames :: Valid(f)
    requires forall g | g in gaps :: ':' !in g
    ensures Feed(st, garbage + Stream(frames, gaps)).1 == Leftover(st, garbage) + Bodies(frames)
    ensures frames != [] ==> Feed(st, garbage + Stream(frames, gaps)).0 == Idle
  {
    hide Feed, Text, Valid, Body, Leftover, Before;
    FeedAppend(st, garbage, Stream(frames, gaps));
    GarbageCompletes(st, garbage);
    var mid := Feed(st, garbage).0;
    if frames == [] {
      FeedNothing(mid);
    } else {
      var rest := gaps[0] + Stream(frames[1..], gaps[1..]);
      FramesComplete(frames, gaps);
      assert Stream(frames, gaps) == Text(frames[0]) + rest;
      assert frames[0] in frames;
      FeedAppend(mid, Text(frames[0]), rest);
      FeedAppend(Idle, Text(frames[0]), rest);
      TextCompletes(mid, frames[0]);
      TextCompletes(Idle, frames[0]);
    }
  }

  /** Every text completed for a frame parses back to it. */
  lemma CompletedReadsBack(f: CanFrame)
    requires Valid(f)
    ensures Parse(CStr(Body(f))) == Some(f)
  {
    BodyShape(f);
    hide Body;
    assert CStr(Body(f)) == Body(f);
    assert Body(f) + "" == Body(f);
    ReadsBack(f, "");
  }
}
