/** What a GridConnect text means, digit by digit (src/utils/gc_format.cpp): which
    characters are printed, and which texts are read as which frame. */
module GridText {
  import opened Bits
  import opened Options
  import opened GridConnect

  const UPPER := "0123456789ABCDEF"
  const LOWER := "0123456789abcdef"

  /** Is the character a hex digit, of either case, for the value? */
  predicate IsDigit(c: char, v: nat) { v < 16 && (c == UPPER[v] || c == LOWER[v]) }

  function Pow16(n: nat): (p: nat)
    ensures p > 0
  {
    if n == 0 then 1 else 16 * Pow16(n - 1)
  }

  lemma NibblePrinted(n: nat)
    ensures NibbleToAscii(n) == UPPER[n % 16]
  {}

  lemma NibbleRead(c: char, v: nat)
    requires v < 16
    ensures AsciiToNibble(c) == v <==> IsDigit(c, v)
  {}

  // ---------------------------------------------------------------------
  // Printed texts

  lemma DivTwice(a: nat, b: nat)
    requires b > 0
    ensures a / b / 16 == a / (16 * b)
  {
    var q, r := a / b, a % b;
    var h, u := q / 16, q % 16;
    DivMod(a, b);
    hide *;
    Sixteenths(h, u, b);
    assert q == 16 * h + u;
    ModUnique(a, 16 * b, h, u * b + r);
  }

  lemma Sixteenths(h: nat, u: nat, b: nat)
    requires u < 16
    ensures (16 * h + u) * b == h * (16 * b) + u * b && 0 <= u * b <= 15 * b
  {
    assert (15 - u) * b >= 0;
  }

  lemma {:induction false} ShrDivides(id: nat, n: nat)
    ensures Shr(id, n) == id / Pow16(n)
  {
    if n > 0 {
      ShrDivides(id, n - 1);
      DivTwice(id, Pow16(n - 1));
    }
  }

  lemma {:induction false} DigitsAt(id: nat, n: nat, i: nat)
    requires i < n
    ensures |Digits(id, n)| == n && Digits(id, n)[i] == UPPER[id / Pow16(n - 1 - i) % 16]
  {
    hide NibbleToAscii, Shr, Pow16;
    DigitsShape(id, n);
    if i == 0 {
      ShrDivides(id, n - 1);
      NibblePrinted(Shr(id, n - 1));
    } else {
      DigitsAt(id, n - 1, i - 1);
    }
  }

  lemma {:induction false} BytesAt(data: seq<nat>, j: nat)
    requires j < |data| && data[j] < 256
    ensures |Bytes(data)| == 2 * |data|
    ensures Bytes(data)[2 * j] == UPPER[data[j] / 16] && Bytes(data)[2 * j + 1] == UPPER[data[j] % 16]
  {
    hide NibbleToAscii;
    BytesShape(data);
    if j == 0 {
      NibblePrinted(data[0] / 16);
      NibblePrinted(data[0]);
    } else {
      BytesAt(data[1..], j - 1);
    }
  }

  /** The last digits of a number, the highest first. */
  predicate AreDigits(d: string, n: nat) {
    forall i: nat | i < |d| :: d[i] == UPPER[n / Pow16(|d| - 1 - i) % 16]
  }

  lemma DigitsAre(d: string, n: nat)
    requires forall i: nat | i < |d| :: d[i] == UPPER[n / Pow16(|d| - 1 - i) % 16]
    ensures AreDigits(d, n)
  {}

  /** Every character of a printed frame: colon, X or S, eight or three digits of the
      identifier, R or N, two digits for each byte, semicolon. */
  lemma TextDenotes(f: CanFrame)
    requires Valid(f)
    ensures var t, w, n := Text(f), if f.eff then 8 else 3, |f.data|;
      && |t| == w + 4 + 2 * n
      && t[0] == ':' && t[1] == (if f.eff then 'X' else 'S')
      && AreDigits(t[2..2 + w], f.id)
      && t[2 + w] == (if f.rtr then 'R' else 'N')
      && (forall j: nat | j < n :: t[3 + w + 2 * j] == UPPER[f.data[j] / 16] && t[4 + w + 2 * j] == UPPER[f.data[j] % 16])
      && t[3 + w + 2 * n] == ';'
  {
    var t, w, n := Text(f), if f.eff then 8 else 3, |f.data|;
    var d, b := Digits(f.id, w), Bytes(f.data);
    TextParts(f);
    hide *;
    DigitsShape(f.id, w);
    BytesShape(f.data);
    assert t[2..2 + w] == d;
    forall i: nat | i < w ensures d[i] == UPPER[f.id / Pow16(w - 1 - i) % 16] {
      DigitsAt(f.id, w, i);
    }
    DigitsAre(d, f.id);
    forall j: nat | j < n ensures t[3 + w + 2 * j] == UPPER[f.data[j] / 16] && t[4 + w + 2 * j] == UPPER[f.data[j] % 16] {
      BytesAt(f.data, j);
      assert t[3 + w + 2 * j] == b[2 * j] && t[4 + w + 2 * j] == b[2 * j + 1];
    }
  }

  lemma TextParts(f: CanFrame)
    requires Valid(f)
    ensures var w := if f.eff then 8 else 3;
      Text(f) == [':', if f.eff then 'X' else 'S'] + Digits(f.id, w) + [if f.rtr then 'R' else 'N'] + Bytes(f.data) + [';']
    ensures forall j | 0 <= j < |f.data| :: 0 <= f.data[j] < 256
  {
    hide Digits, Bytes;
  }

  /** In double format every character stands twice. */
  lemma {:induction false} DoubledAt(s: string, i: nat)
    requires i < |s|
    ensures |Doubled(s)| == 2 * |s| && Doubled(s)[2 * i] == Doubled(s)[2 * i + 1] == s[i]
  {
    DoubledLength(s);
    if i > 0 { DoubledAt(s[1..], i - 1); }
  }

  lemma {:induction false} DoubledLength(s: string)
    ensures |Doubled(s)| == 2 * |s|
  {
    if s != "" { DoubledLength(s[1..]); }
  }

  // ---------------------------------------------------------------------
  // Texts that are read

  /** The digits of `s`, in order, are those of `vs`. */
  predicate Denotes(s: string, vs: seq<nat>) { |s| == |vs| && forall i | 0 <= i < |s| :: IsDigit(s[i], vs[i]) }

  /** The number to the base of 16. */
  function Number(vs: seq<nat>): nat {
    if vs == [] then 0 else 16 * Number(vs[..|vs| - 1]) + vs[|vs| - 1]
  }

  function ByteValues(vs: seq<nat>): seq<nat> {
    seq(|vs| / 2, (j: nat) requires j < |vs| / 2 => 16 * vs[2 * j] + vs[2 * j + 1])
  }

  /** The parts of a text: digits of the identifier, digits of the data, and the rest. */
  datatype Parts = Parts(colon: bool, id: string, idDigits: seq<nat>, data: string, dataDigits: seq<nat>, tail: string)

  predicate Spells(text: string, f: CanFrame, q: Parts) {
    && text == (if q.colon then ":" else "") + (if f.eff then "X" else "S") + q.id
       + (if f.rtr then "R" else "N") + q.data + q.tail
    && Denotes(q.id, q.idDigits) && Denotes(q.data, q.dataDigits) && |q.data| % 2 == 0
    && f.id == Number(q.idDigits) % (if f.eff then 0x2000_0000 else 0x800)
    && f.data == ByteValues(q.dataDigits)
    && (q.tail == "" || q.tail[0] == ';')
  }

  const WORD32: nat := 0x1_0000_0000

  /** The number with more digits behind it. */
  function More(n: nat, vs: seq<nat>): nat
    decreases |vs|
  {
    if vs == [] then n else More(16 * n + vs[0], vs[1..])
  }

  lemma {:induction false} MoreDigits(n: nat, vs: seq<nat>, v: nat)
    ensures More(n, vs + [v]) == 16 * More(n, vs) + v
    decreases |vs|
  {
    if vs == [] {
      assert More(16 * n + v, []) == 16 * n + v;
    } else {
      assert (vs + [v])[1..] == vs[1..] + [v];
      MoreDigits(16 * n + vs[0], vs[1..], v);
    }
  }

  lemma {:induction false} NumberIsMore(vs: seq<nat>)
    ensures Number(vs) == More(0, vs)
  {
    if vs != [] {
      var front, v := vs[..|vs| - 1], vs[|vs| - 1];
      assert vs == front + [v];
      NumberIsMore(front);
      MoreDigits(0, front, v);
    }
  }

  lemma ShiftIn(a: nat, v: nat)
    ensures (a % WORD32 * 16 + v) % WORD32 == (16 * a + v) % WORD32
  {
    DivMod(a, WORD32);
    CongIntro(16 * a + v, a % WORD32 * 16 + v, 16 * (a / WORD32), WORD32);
  }

  lemma LowerBits(a: nat, eff: bool)
    ensures var m := if eff then 0x2000_0000 else 0x800; a % WORD32 % m == a % m
  {
    DivMod(a, WORD32);
    if eff {
      CongIntro(a, a % WORD32, a / WORD32 * 8, 0x2000_0000);
    } else {
      CongIntro(a, a % WORD32, a / WORD32 * 0x20_0000, 0x800);
    }
  }

  lemma DenotesStep(s: string, vs: seq<nat>)
    requires Denotes(s, vs) && s != ""
    ensures |vs| == |s| && AsciiToNibble(s[0]) == vs[0] && Denotes(s[1..], vs[1..])
  {
    assert IsDigit(s[0], vs[0]);
    NibbleRead(s[0], vs[0]);
  }

  lemma DenotesMore(s: string, vs: seq<nat>)
    requires s != "" && AsciiToNibble(s[0]) >= 0 && Denotes(s[1..], vs)
    ensures Denotes(s, [AsciiToNibble(s[0]) as nat] + vs)
  {
    NibbleRead(s[0], AsciiToNibble(s[0]));
    hide IsDigit;
    var v: nat := AsciiToNibble(s[0]);
    forall i | 0 <= i < |s| ensures IsDigit(s[i], ([v] + vs)[i]) {
      if i > 0 { assert s[i] == s[1..][i - 1] && IsDigit(s[1..][i - 1], vs[i - 1]); }
    }
  }

  lemma DenotesNothing()
    ensures Denotes("", [])
  {}

  /** Digits up to an N or an R are read as the number they denote. */
  lemma {:induction false} IdRead(s: string, vs: seq<nat>, r: char, rest: string, a: nat)
    requires Denotes(s, vs) && (r == 'N' || r == 'R')
    ensures ParseId(s + ([r] + rest), a % WORD32) == Some((More(a, vs) % WORD32, r == 'R', rest))
  {
    hide AsciiToNibble, IsDigit, Denotes;
    var t := s + ([r] + rest);
    if s == "" {
      assert t == [r] + rest && t[1..] == rest;
      NoDigits(s, vs, r);
    } else {
      DenotesStep(s, vs);
      assert t[0] == s[0] && t[1..] == s[1..] + ([r] + rest);
      ShiftIn(a, vs[0]);
      IdRead(s[1..], vs[1..], r, rest, 16 * a + vs[0]);
    }
  }

  lemma NoDigits(s: string, vs: seq<nat>, r: char)
    requires Denotes(s, vs)
    ensures s == "" ==> vs == []
    ensures vs != [] ==> s != ""
    ensures r == 'N' || r == 'R' ==> AsciiToNibble(r) < 0
  {}

  /** And only such digits are. */
  lemma {:induction false} IdSplit(s: string, id: nat) returns (ids: string, vs: seq<nat>, r: char)
    requires ParseId(s, id).Some?
    ensures Denotes(ids, vs) && (r == 'N' || r == 'R')
    ensures var (_, rtr, rest) := ParseId(s, id).value; s == ids + ([r] + rest) && (rtr <==> r == 'R')
  {
    hide AsciiToNibble, IsDigit, Denotes;
    if AsciiToNibble(s[0]) >= 0 {
      ids, vs, r := IdSplit(s[1..], (id * 16 + AsciiToNibble(s[0])) % 0x1_0000_0000);
      assert s == [s[0]] + s[1..];
      DenotesMore([s[0]] + ids, vs);
      ids, vs := [s[0]] + ids, [AsciiToNibble(s[0]) as nat] + vs;
    } else {
      ids, vs, r := "", [], s[0];
      DenotesNothing();
      assert s == "" + ([r] + s[1..]);
    }
  }

  /** Pairs of digits up to a semicolon or the end are read as the bytes they denote. */
  lemma {:induction false} DataRead(s: string, vs: seq<nat>, tail: string)
    requires Denotes(s, vs) && |s| % 2 == 0 && (tail == "" || tail[0] == ';')
    ensures ParseData(s + tail) == Some(ByteValues(vs))
  {
    hide AsciiToNibble, IsDigit, Denotes, ByteValues;
    var t := s + tail;
    if s == "" {
      NoDigits(s, vs, 'N');
      NoBytes();
      assert t == tail;
    } else {
      DenotesStep(s, vs);
      DenotesStep(s[1..], vs[1..]);
      assert s[1..][1..] == s[2..] && vs[1..][1..] == vs[2..];
      DataRead(s[2..], vs[2..], tail);
      assert t[..2] == s[..2] && t[2..] == s[2..] + tail;
      DigitIsNotEnd(t[0]);
      FirstByte(vs);
    }
  }

  lemma NoBytes()
    ensures ByteValues([]) == []
  {}

  lemma DigitIsNotEnd(c: char)
    requires AsciiToNibble(c) >= 0
    ensures c != ';'
  {}

  lemma FirstByte(vs: seq<nat>)
    requires |vs| >= 2
    ensures ByteValues(vs) == [16 * vs[0] + vs[1]] + ByteValues(vs[2..])
  {}

  lemma {:induction false} DataSplit(s: string) returns (ds: string, vs: seq<nat>, tail: string)
    requires ParseData(s).Some?
    ensures Denotes(ds, vs) && |ds| % 2 == 0 && s == ds + tail && (tail == "" || tail[0] == ';')
  {
    hide AsciiToNibble, IsDigit, Denotes;
    if s == "" || s[0] == ';' {
      ds, vs, tail := "", [], s;
      DenotesNothing();
    } else {
      ds, vs, tail := DataSplit(s[2..]);
      assert s == [s[0], s[1]] + s[2..];
      DenotesMore([s[1]] + ds, vs);
      assert ([s[0], s[1]] + ds)[1..] == [s[1]] + ds;
      DenotesMore([s[0], s[1]] + ds, [AsciiToNibble(s[1]) as nat] + vs);
      ds, vs := [s[0], s[1]] + ds, [AsciiToNibble(s[0]) as nat] + ([AsciiToNibble(s[1]) as nat] + vs);
    }
  }

  /** What the parser accepts, and what it makes of it: exactly a colon or not, X or S, hex
      digits of either case, N or R, an even number of hex digits, and nothing or a
      semicolon with anything behind it. The identifier is the number that its digits
      denote, cut to 29 or 11 bits, and the bytes are those that the pairs denote. */
  lemma ParsesExactly(text: string, f: CanFrame)
    ensures Parse(text) == Some(f) <==> exists q :: Spells(text, f, q)
  {
    hide Spells, Parse;
    if q :| Spells(text, f, q) {
      SpelledIsParsed(text, f, q);
    }
    if Parse(text) == Some(f) {
      var q := ParsedIsSpelled(text, f);
    }
  }

  /** Parse, in parts. */
  lemma ParseParts(text: string, colon: bool, kind: char, rest: string)
    requires text == (if colon then ":" else "") + ([kind] + rest) && (kind == 'X' || kind == 'S')
    ensures Parse(text)
      == if ParseId(rest, 0).None? then None
         else
           var (id, rtr, data) := ParseId(rest, 0).value;
           if ParseData(data).None? then None
           else Some(CanFrame(kind == 'X', rtr, id % (if kind == 'X' then 0x2000_0000 else 0x800), ParseData(data).value))
  {
    hide ParseId, ParseData;
    var s := if text != "" && text[0] == ':' then text[1..] else text;
    assert s == [kind] + rest && s[1..] == rest;
  }

  lemma SpelledIsParsed(text: string, f: CanFrame, q: Parts)
    requires Spells(text, f, q)
    ensures Parse(text) == Some(f)
  {
    hide ParseId, ParseData, Denotes, Number, ByteValues, Parse;
    var kind, r := if f.eff then 'X' else 'S', if f.rtr then 'R' else 'N';
    var rest := q.id + ([r] + (q.data + q.tail));
    assert text == (if q.colon then ":" else "") + ([kind] + rest);
    ParseParts(text, q.colon, kind, rest);
    IdRead(q.id, q.idDigits, r, q.data + q.tail, 0);
    NumberIsMore(q.idDigits);
    LowerBits(Number(q.idDigits), f.eff);
    DataRead(q.data, q.dataDigits, q.tail);
  }

  lemma HeadOf(text: string) returns (colon: bool, kind: char, rest: string)
    requires Parse(text).Some?
    ensures text == (if colon then ":" else "") + ([kind] + rest) && (kind == 'X' || kind == 'S')
  {
    hide ParseId, ParseData;
    colon := text != "" && text[0] == ':';
    var s := if colon then text[1..] else text;
    kind, rest := s[0], s[1..];
    assert s == [kind] + rest;
  }

  lemma ParsedIsSpelled(text: string, f: CanFrame) returns (q: Parts)
    requires Parse(text) == Some(f)
    ensures Spells(text, f, q)
  {
    hide ParseId, ParseData, Denotes, Number, ByteValues, Parse;
    var colon, kind, rest := HeadOf(text);
    ParseParts(text, colon, kind, rest);
    var ids, vs, r := IdSplit(rest, 0);
    var after := ParseId(rest, 0).value.2;
    var ds, ws, tail := DataSplit(after);
    q := Parts(colon, ids, vs, ds, ws, tail);
    IdRead(ids, vs, r, after, 0);
    NumberIsMore(vs);
    LowerBits(Number(vs), f.eff);
    DataRead(ds, ws, tail);
    assert text == (if colon then ":" else "") + (if f.eff then "X" else "S") + ids + (if f.rtr then "R" else "N") + ds + tail;
  }
}
