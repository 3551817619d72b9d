/// `witnessFromJSON`: the witness values, written as the 32-bit words of a
/// `.wtns` file (header, field prime, section 2 with eight words per value).
module Wtns {
  import opened Arith
  import opened Text
  import opened R1cs

  const WordModulus: nat := 0x1_0000_0000

  /** One slot of a `Uint32Array`. */
  newtype uint32 = x: int | 0 <= x < 0x1_0000_0000

  /** The field prime `p` as eight 32-bit words, least significant first (`prime`). */
  const PrimeWords: seq<uint32> :=
    [0xF0000001, 0x43E1F593, 0x79B97091, 0x2833E848, 0x8181585D, 0xB85045B6, 0xE131A029, 0x30644E72]

  /** `s.slice(start, end)` for `start <= end`: both ends are clamped to the length. */
  function Slice(s: string, start: nat, end: nat): (r: string)
    requires start <= end
    ensures |r| <= end - start
    ensures start >= |s| ==> r == []
    ensures end <= |s| ==> |r| == end - start
    ensures r != [] ==> start + |r| <= |s| && r == s[start..start + |r|]
  {
    if start >= |s| then [] else if end <= |s| then s[start..end] else s[start..]
  }

  /** `parseInt(s, 16)` on a string of lower-case hex digits: NaN when it is empty. */
  function ParseHex(s: string): (r: JsNumber)
    requires AllDigits(s, 16)
    ensures r.NaN? <==> s == []
    ensures r.Int? ==> r.value >= 0
  {
    if s == [] then NaN else Int(FromBase(s, 16))
  }

  /** A number stored into a `Uint32Array` slot: NaN becomes 0, integers wrap modulo 2^32. */
  function ToUint32(x: JsNumber): (r: uint32)
    ensures x.Int? && 0 <= x.value < WordModulus ==> r as int == x.value
    ensures x.NaN? ==> r == 0
  {
    match x
    case NaN => 0
    case Int(v) => (v % WordModulus) as uint32
  }

  /** Word `j` taken from a hex string: `parseInt(hex.slice(j * 8, (j + 1) * 8), 16)`. */
  function HexWord(hex: string, j: nat): uint32
    requires AllDigits(hex, 16)
  {
    ToUint32(ParseHex(Slice(hex, j * 8, (j + 1) * 8)))
  }

  /** The eight words sliced from a hex string, most significant digits first. */
  function HexWords(hex: string): (ws: seq<uint32>)
    requires AllDigits(hex, 16)
    ensures |ws| == 8
  {
    seq(8, j requires 0 <= j < 8 => HexWord(hex, j))
  }

  lemma HexWordsAt(hex: string)
    requires AllDigits(hex, 16)
    ensures forall k :: 0 <= k < 8 ==> HexWords(hex)[k] == HexWord(hex, k)
  {
  }

  /** The eight words the source writes for one witness value. */
  function ElementWords(v: nat): (ws: seq<uint32>)
    ensures |ws| == 8
  {
    HexWords(ToBase(v, 16))
  }

  /** Section 2: the words of every value, in order. */
  function Elements(w: seq<nat>): (ws: seq<uint32>)
    ensures |ws| == 8 * |w|
  {
    if w == [] then [] else Elements(w[..|w| - 1]) + ElementWords(w[|w| - 1])
  }

  lemma ElementsStep(w: seq<nat>, i: nat)
    requires i < |w|
    ensures Elements(w[..i + 1]) == Elements(w[..i]) + ElementWords(w[i])
  {
    assert w[..i + 1][..i] == w[..i];
  }

  /** The word whose four bytes in memory are `b0, b1, b2, b3` on a little-endian machine. */
  function BytesWord(b0: nat, b1: nat, b2: nat, b3: nat): (r: uint32)
    requires b0 < 256 && b1 < 256 && b2 < 256 && b3 < 256
    ensures r as int % 256 == b0 && r as int / 0x100_0000 == b3
  {
    (b0 + 0x100 * b1 + 0x1_0000 * b2 + 0x100_0000 * b3) as uint32
  }

  /** The first seven words: magic `"wtns"`, version 2, two sections, the id
      of section 1, its byte length 40 as two hex-sliced words, and `n8 = 32`. */
  function Preamble(): (ws: seq<uint32>)
    ensures |ws| == 7
  {
    var len1 := ToBase(8 + 32, 16);
    [BytesWord('w' as nat, 't' as nat, 'n' as nat, 's' as nat), 2, 2, 1,
     HexWord(len1, 0), HexWord(len1, 1), 32]
  }

  /** The last four header words: the witness count, the id of section 2 and
      its byte length `32n` as two hex-sliced words. */
  function Counts(n: nat): (ws: seq<uint32>)
    ensures |ws| == 4
  {
    var len2 := ToBase(32 * n, 16);
    [ToUint32(Int(n)), 2, HexWord(len2, 0), HexWord(len2, 1)]
  }

  function Header(n: nat): (ws: seq<uint32>)
    ensures |ws| == 19
  {
    Preamble() + PrimeWords + Counts(n)
  }

  lemma HeaderParts(h: seq<uint32>, front: seq<uint32>, n: nat)
    requires |h| == 19 && |front| == 15 && h[..15] == front && h[15..] == Counts(n)
    requires front[..7] == Preamble() && front[7..] == PrimeWords
    ensures h == Header(n)
  {
    assert h == front[..7] + front[7..] + h[15..];
  }

  /** The whole buffer `witnessFromJSON` writes. */
  function WtnsWords(w: seq<nat>): seq<uint32>
  {
    Header(|w|) + Elements(w)
  }

  /** `witnessFromJSON` on the parsed witness values: allocates `8n + 19`
      words and fills them in order. */
  method WitnessFromJSON(values: seq<nat>) returns (buff: array<uint32>)
    ensures fresh(buff)
    ensures buff[..] == WtnsWords(values)
  {
    var n := |values|;
    buff := new uint32[n * 8 + 8 + 11];
    WriteHeader(buff, n);
    WriteElements(buff, 19, values, Header(n));
  }

  /** The element loop of `witnessFromJSON`: value `i` goes to words
      `19 + 8i .. 19 + 8i + 8`, after the words already written. */
  method WriteElements(buff: array<uint32>, start: nat, values: seq<nat>, ghost prefix: seq<uint32>)
    requires start == |prefix| && buff.Length == start + 8 * |values| && buff[..start] == prefix
    modifies buff
    ensures buff[..] == prefix + Elements(values)
  {
    var pos := start;
    for i := 0 to |values|
      invariant pos == start + 8 * i
      invariant buff[..pos] == prefix + Elements(values[..i])
    {
      ghost var written := buff[..pos];
      WriteElement(buff, pos, values[i]);
      ElementsStep(values, i);
      assert prefix + Elements(values[..i + 1]) == written + ElementWords(values[i]);
      pos := pos + 8;
    }
    assert values[..|values|] == values;
    assert buff[..] == buff[..pos];
  }

  /** The header words of `witnessFromJSON`, in the order it writes them. */
  method WriteHeader(buff: array<uint32>, n: nat)
    requires buff.Length >= 19
    modifies buff
    ensures buff[..19] == Header(n)
    ensures buff[19..] == old(buff[19..])
  {
    WritePreamble(buff);
    var pos := 7;
    WritePrime(buff, pos);
    ghost var front := buff[..15];
    assert front[..7] == Preamble() && front[7..] == PrimeWords;
    pos := pos + 8;
    WriteCounts(buff, pos, n);
    HeaderParts(buff[..19], front, n);
  }

  /** The loop copying the eight words of the prime. */
  method WritePrime(buff: array<uint32>, pos: nat)
    requires pos + 8 <= buff.Length
    modifies buff
    ensures buff[..pos] == old(buff[..pos])
    ensures buff[pos..pos + 8] == PrimeWords
    ensures buff[pos + 8..] == old(buff[pos + 8..])
  {
    for i := 0 to 8
      invariant buff[..pos] == old(buff[..pos])
      invariant buff[pos + 8..] == old(buff[pos + 8..])
      invariant forall k :: 0 <= k < i ==> buff[pos + k] == PrimeWords[k]
    {
      buff[pos + i] := PrimeWords[i];
    }
  }

  method WritePreamble(buff: array<uint32>)
    requires buff.Length >= 19
    modifies buff
    ensures buff[..7] == Preamble()
    ensures buff[7..] == old(buff[7..])
  {
    buff[0] := BytesWord('w' as nat, 't' as nat, 'n' as nat, 's' as nat);
    buff[1] := 2;
    buff[2] := 2;
    buff[3] := 1;
    var n8 := 8 * 4;
    var idSection1lengthHex := ToBase(8 + n8, 16);
    buff[4] := HexWord(idSection1lengthHex, 0);
    buff[5] := HexWord(idSection1lengthHex, 1);
    buff[6] := n8 as uint32;
  }

  method WriteCounts(buff: array<uint32>, pos: nat, n: nat)
    requires pos + 4 <= buff.Length
    modifies buff
    ensures buff[..pos] == old(buff[..pos])
    ensures buff[pos..pos + 4] == Counts(n)
    ensures buff[pos + 4..] == old(buff[pos + 4..])
  {
    buff[pos] := ToUint32(Int(n));
    buff[pos + 1] := 2;
    var idSection2lengthHex := ToBase(32 * n, 16);
    buff[pos + 2] := HexWord(idSection2lengthHex, 0);
    buff[pos + 3] := HexWord(idSection2lengthHex, 1);
  }

  /** One pass of the element loop: the eight words of `v` at `pos`. The words
      after `pos + 8` are left out of the contract on purpose: the element loop
      writes them next, and `WitnessFromJSON` states the whole buffer. */
  method WriteElement(buff: array<uint32>, pos: nat, v: nat)
    requires pos + 8 <= buff.Length
    modifies buff
    ensures buff[..pos + 8] == old(buff[..pos]) + ElementWords(v)
  {
    var witnessHex := ToBase(v, 16);
    WriteHexWords(buff, pos, witnessHex);
  }

  /** The inner loop of the element loop: word `j` is parsed from hex digits
      `8j .. 8j + 8` of `hex`. As for `WriteElement`, the words after `pos + 8`
      are left out of the contract on purpose. */
  method WriteHexWords(buff: array<uint32>, pos: nat, hex: string)
    requires pos + 8 <= buff.Length && AllDigits(hex, 16)
    modifies buff
    ensures buff[..pos + 8] == old(buff[..pos]) + HexWords(hex)
  {
    for j := 0 to 8
      invariant buff[..pos] == old(buff[..pos])
      invariant forall k :: 0 <= k < j ==> buff[pos + k] == HexWord(hex, k)
    {
      buff[pos + j] := HexWord(hex, j);
    }
    HexWordsAt(hex);
    assert buff[pos..pos + 8] == HexWords(hex);
    assert buff[..pos + 8] == buff[..pos] + buff[pos..pos + 8];
  }

  // ---------------------------------------------------------------------
  // Reading the words back

  /** The number whose 32-bit words, least significant first, are `ws`. */
  function LittleEndian(ws: seq<uint32>): nat
  {
    if ws == [] then 0 else ws[0] as nat + WordModulus * LittleEndian(ws[1..])
  }

  /** The number whose 32-bit words, most significant first, are `ws`. */
  function BigEndian(ws: seq<uint32>): nat
  {
    if ws == [] then 0 else BigEndian(ws[..|ws| - 1]) * WordModulus + ws[|ws| - 1] as nat
  }

  /** The `k` least significant 32-bit words of `v`, least significant first:
      the layout the `.wtns` format gives a field element. */
  function Limbs(v: nat, k: nat): (ws: seq<uint32>)
    ensures |ws| == k
  {
    if k == 0 then [] else [(v % WordModulus) as uint32] + Limbs(v / WordModulus, k - 1)
  }

  lemma HexWordSize()
    ensures Pow(16, 8) == WordModulus
  {
  }

  /** Reading limbs back gives the value modulo `2^(32k)`. */
  lemma {:induction false} LimbsRoundTrip(v: nat, k: nat)
    ensures Pow(WordModulus, k) > 0
    ensures LittleEndian(Limbs(v, k)) == v % Pow(WordModulus, k)
  {
    PowPositive(WordModulus, k);
    if k > 0 {
      LimbsRoundTrip(v / WordModulus, k - 1);
      ModProduct(v, WordModulus, Pow(WordModulus, k - 1));
      assert Limbs(v, k)[1..] == Limbs(v / WordModulus, k - 1);
    }
  }

  /** Splitting the value of `ws` into limbs gives `ws` back. */
  lemma {:induction false} LittleEndianLimbs(ws: seq<uint32>)
    ensures Limbs(LittleEndian(ws), |ws|) == ws
  {
    if ws != [] {
      var rest := LittleEndian(ws[1..]);
      LittleEndianLimbs(ws[1..]);
      DivModUnique(rest, WordModulus, ws[0] as nat);
      assert LittleEndian(ws) == rest * WordModulus + ws[0] as nat;
    }
  }

  /** The prime words read little-endian are `p`, and they are exactly its limbs. */
  lemma PrimeWordsValue()
    ensures LittleEndian(PrimeWords) == P
    ensures PrimeWords == Limbs(P, 8)
  {
    assert LittleEndian(PrimeWords[7..]) == 811880050;
    assert LittleEndian(PrimeWords[6..]) == 3486998266802970665;
    assert LittleEndian(PrimeWords[5..]) == 14976543517127441484914640310;
    assert LittleEndian(PrimeWords[4..]) == 64323764613183177041862057485226039389;
    assert LittleEndian(PrimeWords[3..]) == 276268465369223835852175559842317842344037312584;
    assert LittleEndian(PrimeWords[2..]) == 1186564023676924939888766319973246049704924238154051448977;
    assert LittleEndian(PrimeWords[1..]) == 5096253676302562286669017222071363378443840053029366383258766538131;
    LittleEndianLimbs(PrimeWords);
  }

  /** A value below `2^32` has at most eight hex digits: word 0 is the value and
      every later slice is empty, so its word is 0. */
  lemma ShortHex(v: nat, j: nat)
    requires v < WordModulus
    ensures HexWord(ToBase(v, 16), j) as int == if j == 0 then v else 0
  {
    var hex := ToBase(v, 16);
    HexWordSize();
    ToBaseLength(v, 16, 8);
    if j == 0 {
      assert Slice(hex, 0, 8) == hex;
      FromToBase(v, 16);
    } else {
      assert Slice(hex, j * 8, (j + 1) * 8) == [];
    }
  }

  /** The first seven words: `"wtns"`, version 2, two sections, section 1 of
      40 bytes (written as the words 40 and 0), and `n8 = 32`. */
  lemma PreambleWords()
    ensures Preamble() == [0x736e7477, 2, 2, 1, 40, 0, 32]
  {
    ShortHex(40, 0);
    ShortHex(40, 1);
  }

  /** Word 15 is the witness count modulo 2^32; word 16 is the id 2; while
      `32n < 2^32` words 17 and 18 are the section length `32n` and 0. */
  lemma CountWords(n: nat)
    ensures Counts(n)[0] as int == n % WordModulus
    ensures Counts(n)[1] == 2
    ensures 32 * n < WordModulus ==> Counts(n)[2] as int == 32 * n && Counts(n)[3] == 0
  {
    if 32 * n < WordModulus {
      ShortHex(32 * n, 0);
      ShortHex(32 * n, 1);
    }
  }

  /** The eight words of value `i` sit at `8i .. 8i + 8` of section 2. */
  lemma {:induction false} ElementsAt(w: seq<nat>, i: nat)
    requires i < |w|
    ensures Elements(w)[8 * i..8 * i + 8] == ElementWords(w[i])
  {
    var init := w[..|w| - 1];
    if i < |w| - 1 {
      ElementsAt(init, i);
      assert init[i] == w[i];
      assert Elements(w)[8 * i..8 * i + 8] == Elements(init)[8 * i..8 * i + 8];
    }
  }

  /** The file has `8n + 19` words: header, the prime at 7-14, the counts at
      15-18, and the words of value `i` at `19 + 8i`. */
  lemma WtnsLayout(w: seq<nat>)
    ensures |WtnsWords(w)| == 8 * |w| + 19
    ensures WtnsWords(w)[..7] == [0x736e7477, 2, 2, 1, 40, 0, 32]
    ensures WtnsWords(w)[7..15] == PrimeWords
    ensures WtnsWords(w)[15..19] == Counts(|w|)
    ensures forall i :: 0 <= i < |w| ==> WtnsWords(w)[19 + 8 * i..27 + 8 * i] == ElementWords(w[i])
  {
    PreambleWords();
    forall i | 0 <= i < |w|
      ensures WtnsWords(w)[19 + 8 * i..27 + 8 * i] == ElementWords(w[i])
    {
      ElementsAt(w, i);
      assert WtnsWords(w)[19 + 8 * i..27 + 8 * i] == Elements(w)[8 * i..8 * i + 8];
    }
  }

  /** A value below `2^32` is written as itself followed by seven zero words. */
  lemma SmallElement(v: nat)
    requires v < WordModulus
    ensures ElementWords(v) == [v as uint32, 0, 0, 0, 0, 0, 0, 0]
  {
    forall j | 0 <= j < 8
      ensures ElementWords(v)[j] as int == if j == 0 then v else 0
    {
      ShortHex(v, j);
    }
  }

  /** A slice that lies inside the hex string reads as its eight digits. */
  lemma FullChunk(hex: string, j: nat)
    requires AllDigits(hex, 16) && (j + 1) * 8 <= |hex|
    ensures HexWord(hex, j) as int == FromBase(hex[j * 8..(j + 1) * 8], 16)
  {
    var chunk := hex[j * 8..(j + 1) * 8];
    assert Slice(hex, j * 8, (j + 1) * 8) == chunk;
    FromBaseBound(chunk, 16);
    HexWordSize();
  }

  /** Reading one more full chunk of digits. */
  lemma ChunkStep(hex: string, j: nat)
    requires (j + 1) * 8 <= |hex|
    ensures FromBase(hex[..(j + 1) * 8], 16)
         == FromBase(hex[..j * 8], 16) * Pow(16, 8) + FromBase(hex[j * 8..(j + 1) * 8], 16)
  {
    assert hex[..(j + 1) * 8] == hex[..j * 8] + hex[j * 8..(j + 1) * 8];
    FromBaseAppend(hex[..j * 8], hex[j * 8..(j + 1) * 8], 16);
  }

  /** Prefixes of full 8-digit slices read back as the matching prefix of the hex string. */
  lemma {:induction false} FullSlices(hex: string, ws: seq<uint32>, k: nat)
    requires AllDigits(hex, 16) && |hex| == 64 && |ws| == 8 && k <= 8
    requires forall j :: 0 <= j < 8 ==> ws[j] == HexWord(hex, j)
    ensures BigEndian(ws[..k]) == FromBase(hex[..k * 8], 16)
  {
    if k > 0 {
      var last := k - 1;
      FullSlices(hex, ws, last);
      FullChunk(hex, last);
      ChunkStep(hex, last);
      HexWordSize();
      assert ws[..k][..last] == ws[..last];
    }
  }

  /** A value with exactly 64 hex digits is written as its 32-bit words, most
      significant first. */
  lemma FullWidthElement(v: nat)
    requires Pow(16, 63) <= v < Pow(16, 64)
    ensures BigEndian(ElementWords(v)) == v
  {
    var hex := ToBase(v, 16);
    ToBaseLength(v, 16, 63);
    ToBaseLength(v, 16, 64);
    FullSlices(hex, ElementWords(v), 8);
    assert hex[..64] == hex;
    assert ElementWords(v)[..8] == ElementWords(v);
    FromToBase(v, 16);
  }

  /** `2^32` has nine hex digits: `10000000` and then `0`. */
  lemma NineDigits()
    ensures |ToBase(WordModulus, 16)| == 9
    ensures FromBase(ToBase(WordModulus, 16)[..8], 16) == 0x1000_0000
    ensures FromBase(ToBase(WordModulus, 16)[8..], 16) == 0
  {
    var hex := ToBase(WordModulus, 16);
    HexWordSize();
    ToBaseLength(WordModulus, 16, 8);
    ToBaseLength(WordModulus, 16, 9);
    var head, tail := hex[..8], hex[8..];
    assert hex == head + tail;
    FromBaseAppend(head, tail, 16);
    FromToBase(WordModulus, 16);
    FromBaseBound(tail, 16);
    DivModUnique(FromBase(head, 16), 16, FromBase(tail, 16));
  }

  /** `2^28` (eight hex digits) and `2^32` (nine) are written alike: the ninth
      digit of `2^32` lands alone in word 1 and reads as 0. */
  lemma EncodingCollision()
    ensures ElementWords(0x1000_0000) == ElementWords(0x1_0000_0000)
  {
    var hex := ToBase(WordModulus, 16);
    NineDigits();
    SmallElement(0x1000_0000);
    forall j | 0 <= j < 8
      ensures ElementWords(WordModulus)[j] as int == if j == 0 then 0x1000_0000 else 0
    {
      if j == 0 {
        assert Slice(hex, 0, 8) == hex[..8];
      } else if j == 1 {
        assert Slice(hex, 8, 16) == hex[8..];
      } else {
        assert Slice(hex, j * 8, (j + 1) * 8) == [];
      }
    }
  }

  /** Little-endian limbs keep every value below `2^256` apart: they read back exactly. */
  lemma LimbsExact(v: nat)
    requires v < Pow(WordModulus, 8)
    ensures LittleEndian(Limbs(v, 8)) == v
  {
    LimbsRoundTrip(v, 8);
  }

  /** The element layout the `.wtns` format intends, and the one `PrimeWords`
      follows: eight 32-bit limbs, least significant first.  Every value below
      `2^256` reads back exactly. */
  function IntendedElementWords(v: nat): (ws: seq<uint32>)
    requires v < Pow(WordModulus, 8)
    ensures |ws| == 8 && LittleEndian(ws) == v
  {
    LimbsExact(v);
    Limbs(v, 8)
  }

  /** The intended layout keeps distinct values apart. */
  lemma IntendedInjective(u: nat, v: nat)
    requires u < Pow(WordModulus, 8) && v < Pow(WordModulus, 8)
    requires IntendedElementWords(u) == IntendedElementWords(v)
    ensures u == v
  {
  }

  /** Below `2^32` the words written agree with the intended layout. */
  lemma SmallElementIntended(v: nat)
    requires v < WordModulus
    ensures v < Pow(WordModulus, 8)
    ensures ElementWords(v) == IntendedElementWords(v)
  {
    WordBelowWidth();
    var ws := ElementWords(v);
    SmallElement(v);
    assert ws[1..] == [0, 0, 0, 0, 0, 0, 0];
    ZeroWords(ws[1..]);
    assert LittleEndian(ws) == v;
    LittleEndianLimbs(ws);
  }

  lemma WordBelowWidth()
    ensures WordModulus <= Pow(WordModulus, 8)
  {
    PowPositive(WordModulus, 7);
    MulMonotone(1, Pow(WordModulus, 7), WordModulus);
  }

  lemma {:induction false} ZeroWords(ws: seq<uint32>)
    requires forall j :: 0 <= j < |ws| ==> ws[j] == 0
    ensures LittleEndian(ws) == 0
  {
    if ws != [] {
      ZeroWords(ws[1..]);
    }
  }

  /** `2^32` as written reads back, in the format's little-endian order, as `2^28`. */
  lemma AsWrittenMisreads()
    ensures LittleEndian(ElementWords(WordModulus)) == 0x1000_0000
    ensures IntendedElementWords(WordModulus) != ElementWords(WordModulus)
  {
    EncodingCollision();
    SmallElementIntended(0x1000_0000);
    WordBelowWidth();
  }
}
