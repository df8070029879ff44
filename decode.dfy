/** The canonical decode routine `decodeHelper(alphabet, seed)` that every recognised
    inline decode block is replaced by (lib/index.js:404-432): a basE91-style
    binary-to-text decoder over a caller-supplied alphabet.

    Each character of the seed is looked up in the alphabet; characters that do not
    occur are skipped. Symbols are taken in pairs `(lo, hi)` worth `lo + 91 * hi`;
    a pair contributes 13 bits when its low 13 bits exceed 88 and 14 bits otherwise,
    placed above the bits still pending, and every whole byte is then emitted, least
    significant first. A final unpaired symbol contributes one last byte.

    JavaScript runs this on 32-bit integers. With at most `MaxAlphabet` symbols a
    pair is worth less than 2^14 and the accumulator never reaches 2^22, so `|`,
    `<<`, `>>` and `&` are exact; they are written here as `BitOr`, multiplication
    by `Pow2`, division by 256 and `% 256`, `% 8192`. */
module Decode {
  import opened Wrappers
  import JsStrings

  /** The weight of the high symbol of a pair. */
  const Radix: nat := 91

  /** The largest alphabet whose pairs fit in 14 bits: 178 + 91 * 178 < 2^14. */
  const MaxAlphabet: nat := 179

  function Pow2(n: nat): (r: nat)
    ensures r > 0
  {
    if n == 0 then 1 else 2 * Pow2(n - 1)
  }

  /** Bitwise or of two non-negative integers, bit by bit from the least significant. */
  function BitOr(x: nat, y: nat): nat
    decreases x + y
  {
    if x == 0 then y
    else if y == 0 then x
    else 2 * BitOr(x / 2, y / 2) + (if x % 2 == 1 || y % 2 == 1 then 1 else 0)
  }

  /** `v << b`, exact while the result stays below 2^31. */
  function Shl(v: nat, b: nat): nat {
    v * Pow2(b)
  }

  /** `(v & 8191) > 88 ? 13 : 14`: how many bits a pair worth `v` adds. */
  function Width(v: nat): nat {
    if v % 8192 > 88 then 13 else 14
  }

  /** The seed as `"" + (seed || "")` makes it: a missing seed reads as empty. */
  function SeedText(seed: Option<string>): string {
    if seed.Some? then seed.value else ""
  }

  /** The alphabet positions of the characters of `text`, in order, leaving out the
      characters that are not in the alphabet. */
  function Symbols(alphabet: string, text: string): (r: seq<nat>)
    ensures forall i :: 0 <= i < |r| ==> r[i] < |alphabet|
    decreases |text|
  {
    if |text| == 0 then []
    else
      var idx := JsStrings.IndexOf(alphabet, [text[0]], 0);
      (if idx == -1 then [] else [idx as nat]) + Symbols(alphabet, text[1..])
  }

  /** `x >> 8`, `n` times. */
  function ShiftBytes(x: nat, n: nat): nat {
    if n == 0 then x else ShiftBytes(x, n - 1) / 256
  }

  /** The `n` least significant bytes of `x`, least significant first. */
  function LowBytes(x: nat, n: nat): (r: seq<int>)
    ensures |r| == n
  {
    if n == 0 then [] else LowBytes(x, n - 1) + [ShiftBytes(x, n - 1) % 256]
  }

  /** What one pair of symbols does: the bytes it completes, and the accumulator and
      pending bit count left afterwards. */
  datatype Step = Step(out: seq<int>, acc: nat, bits: nat)

  function PairStep(acc: nat, bits: nat, lo: nat, hi: nat): Step {
    var v := lo + Radix * hi;
    var acc1 := BitOr(acc, Shl(v, bits));
    var bits1 := bits + Width(v);
    Step(LowBytes(acc1, bits1 / 8), ShiftBytes(acc1, bits1 / 8), bits1 % 8)
  }

  /** The bytes that a symbol sequence decodes to, starting from an accumulator `acc`
      holding `bits` pending bits: pair by pair, then a last byte for an unpaired
      symbol. */
  function DecodeFrom(syms: seq<nat>, acc: nat, bits: nat): seq<int>
    decreases |syms|
  {
    if |syms| == 0 then []
    else if |syms| == 1 then [BitOr(acc, Shl(syms[0], bits)) % 256]
    else
      var s := PairStep(acc, bits, syms[0], syms[1]);
      s.out + DecodeFrom(syms[2..], s.acc, s.bits)
  }

  /** The output of `decodeHelper(alphabet, seed)`. */
  function Decode(alphabet: string, seed: Option<string>): seq<int> {
    DecodeFrom(Symbols(alphabet, SeedText(seed)), 0, 0)
  }

  /** The symbols still to decode when `pending` (or -1) is held back. */
  function WithPending(pending: int, syms: seq<nat>): seq<nat> {
    if pending < 0 then syms else [pending as nat] + syms
  }

  /** The routine as written: a `for` loop over the seed with a pending symbol,
      an accumulator and a bit count, and a `do`-`while` that drains whole bytes. */
  method DecodeHelper(alphabet: string, seed: Option<string>) returns (bytes: seq<int>)
    requires |alphabet| <= MaxAlphabet
    ensures bytes == Decode(alphabet, seed)
    ensures forall k :: 0 <= k < |bytes| ==> 0 <= bytes[k] < 256
    ensures SeedText(seed) == "" ==> bytes == []
  {
    var text := SeedText(seed);
    bytes := [];
    var acc: nat, bits: nat, pending: int := 0, 0, -1;
    for i := 0 to |text|
      invariant bits <= 7 && acc < Pow2(bits + 1)
      invariant -1 <= pending < |alphabet|
      invariant bytes + DecodeFrom(WithPending(pending, Symbols(alphabet, text[i..])), acc, bits)
        == Decode(alphabet, seed)
    {
      var idx := JsStrings.IndexOf(alphabet, [text[i]], 0);
      SymbolsUnfold(alphabet, text, i);
      if idx == -1 {
        continue;
      }
      if pending < 0 {
        pending := idx;
      } else {
        var out;
        ghost var before, acc0, bits0 := bytes, acc, bits;
        out, acc, bits := AddPair(acc, bits, pending, idx);
        bytes := bytes + out;
        PairAdvance(before, out, acc0, bits0, pending, idx, Symbols(alphabet, text[i + 1..]), acc, bits);
        pending := -1;
      }
    }
    assert text[|text|..] == [];
    if pending > -1 {
      bytes := bytes + [BitOr(acc, Shl(pending, bits)) % 256];
    }
    DecodeBytesInRange(Symbols(alphabet, text), 0, 0);
  }

  /** The `else` branch of the loop for a pair `(lo, hi)`: fold the pair into the
      accumulator, then the `do`-`while` that pushes `acc & 255` and shifts right by 8
      until at most 7 bits are pending. */
  method AddPair(acc: nat, bits: nat, lo: nat, hi: nat)
    returns (out: seq<int>, acc': nat, bits': nat)
    requires bits <= 7 && acc < Pow2(bits + 1)
    requires lo < MaxAlphabet && hi < MaxAlphabet
    ensures Step(out, acc', bits') == PairStep(acc, bits, lo, hi)
    ensures bits' <= 7 && acc' < Pow2(bits' + 1)
    ensures 1 <= |out| <= 2
  {
    PairStepBounds(acc, bits, lo, hi);
    var pending := lo + hi * Radix;
    var acc1 := BitOr(acc, Shl(pending, bits));
    var bits1 := bits + Width(pending);
    PairStepIs(acc, bits, lo, hi, pending);
    var j := 1;
    out, acc', bits' := [acc1 % 256], acc1 / 256, bits1 - 8;
    while bits' > 7
      invariant 1 <= j && bits' == bits1 - 8 * j && bits' >= 0
      invariant acc' == ShiftBytes(acc1, j)
      invariant out == LowBytes(acc1, j)
      decreases bits'
    {
      out, acc', bits' := out + [acc' % 256], acc' / 256, bits' - 8;
      j := j + 1;
    }
    assert j == bits1 / 8;
  }

  /** One character of the seed adds its alphabet position, if it has one, in front
      of the symbols of the rest. */
  lemma SymbolsUnfold(alphabet: string, text: string, i: nat)
    requires i < |text|
    ensures JsStrings.IndexOf(alphabet, [text[i]], 0) == -1 ==>
      Symbols(alphabet, text[i..]) == Symbols(alphabet, text[i + 1..])
    ensures JsStrings.IndexOf(alphabet, [text[i]], 0) != -1 ==>
      Symbols(alphabet, text[i..])
        == [JsStrings.IndexOf(alphabet, [text[i]], 0) as nat] + Symbols(alphabet, text[i + 1..])
  {
    assert text[i..][1..] == text[i + 1..];
  }

  /** Folding one pair into the output keeps the decoded total. */
  lemma PairAdvance(before: seq<int>, out: seq<int>, acc: nat, bits: nat, lo: nat, hi: nat,
                    rest: seq<nat>, acc': nat, bits': nat)
    requires Step(out, acc', bits') == PairStep(acc, bits, lo, hi)
    ensures before + DecodeFrom([lo] + ([hi] + rest), acc, bits)
      == (before + out) + DecodeFrom(rest, acc', bits')
  {
    assert ([lo] + ([hi] + rest))[2..] == rest;
  }

  lemma PairStepIs(acc: nat, bits: nat, lo: nat, hi: nat, v: nat)
    requires v == lo + Radix * hi
    ensures PairStep(acc, bits, lo, hi)
      == Step(LowBytes(BitOr(acc, Shl(v, bits)), (bits + Width(v)) / 8),
              ShiftBytes(BitOr(acc, Shl(v, bits)), (bits + Width(v)) / 8),
              (bits + Width(v)) % 8)
  {
  }

  /** With fewer than 2^(bits + 1) pending and symbols from an alphabet of at most
      `MaxAlphabet` characters, a pair keeps the accumulator below 2^22 before
      draining and leaves 0..7 pending bits below 2^(bits' + 1) after it. */
  lemma PairStepBounds(acc: nat, bits: nat, lo: nat, hi: nat)
    requires bits <= 7 && acc < Pow2(bits + 1)
    requires lo < MaxAlphabet && hi < MaxAlphabet
    ensures var v := lo + Radix * hi;
      var bits1 := bits + Width(v);
      BitOr(acc, Shl(v, bits)) < Pow2(22) &&
      8 <= bits1 && bits1 / 8 <= 2
    ensures PairStep(acc, bits, lo, hi).bits <= 7
    ensures PairStep(acc, bits, lo, hi).acc < Pow2(PairStep(acc, bits, lo, hi).bits + 1)
    ensures 1 <= |PairStep(acc, bits, lo, hi).out| <= 2
  {
    var v := lo + Radix * hi;
    Pow2Values();
    assert v < Pow2(14);
    PairBelow(v, bits);
    Pow2Monotone(bits + 1, bits + 14);
    BitOrBound(acc, Shl(v, bits), bits + 14);
    var acc1 := BitOr(acc, Shl(v, bits));
    Pow2Monotone(bits + 14, 22);
    var bits1 := bits + Width(v);
    Pow2Monotone(bits + 14, bits1 + 1);
    ShiftBelow(acc1, bits1, bits1 / 8);
  }

  lemma Pow2Add(a: nat, b: nat)
    ensures Pow2(a + b) == Pow2(a) * Pow2(b)
    decreases a
  {
    if a > 0 {
      Pow2Add(a - 1, b);
    }
  }

  lemma Pow2Monotone(a: nat, b: nat)
    requires a <= b
    ensures Pow2(a) <= Pow2(b)
    decreases b
  {
    if a < b {
      Pow2Monotone(a, b - 1);
    }
  }

  lemma Pow2Values()
    ensures Pow2(8) == 256 && Pow2(14) == 16384 && Pow2(22) == 4194304
  {
    assert Pow2(2) == 4;
    assert Pow2(4) == 16;
    assert Pow2(6) == 64;
    assert Pow2(8) == 256;
    assert Pow2(10) == 1024;
    assert Pow2(12) == 4096;
    assert Pow2(14) == 16384;
    assert Pow2(16) == 65536;
    assert Pow2(18) == 262144;
    assert Pow2(20) == 1048576;
  }

  /** A pair below 2^14, shifted above `bits` pending bits, stays below
      2^(bits + 14). */
  lemma PairBelow(v: nat, bits: nat)
    requires v < Pow2(14)
    ensures v * Pow2(bits) < Pow2(bits + 14)
  {
    var p := Pow2(bits);
    Pow2Add(bits, 14);
    assert (Pow2(14) - v) * p > 0;
    assert Pow2(14) * p - v * p == (Pow2(14) - v) * p;
  }

  /** `|` never sets a bit above the highest bit of its operands. */
  lemma {:induction false} BitOrBound(x: nat, y: nat, k: nat)
    requires x < Pow2(k) && y < Pow2(k)
    ensures BitOr(x, y) < Pow2(k)
    decreases k
  {
    if k > 0 && x != 0 && y != 0 {
      BitOrBound(x / 2, y / 2, k - 1);
    }
  }

  /** Draining `n` whole bytes from a value below 2^(bits + 1) leaves a value below
      2^(bits - 8n + 1). */
  lemma ShiftBelow(x: nat, bits: nat, n: nat)
    requires 8 * n <= bits
    requires x < Pow2(bits + 1)
    ensures ShiftBytes(x, n) < Pow2(bits - 8 * n + 1)
    decreases n
  {
    if n > 0 {
      ShiftBelow(x, bits, n - 1);
      Pow2Add(8, bits - 8 * n + 1);
    }
  }

  /** Every byte the decoder emits is in 0..255. */
  lemma {:induction false} DecodeBytesInRange(syms: seq<nat>, acc: nat, bits: nat)
    ensures forall k :: 0 <= k < |DecodeFrom(syms, acc, bits)| ==> 0 <= DecodeFrom(syms, acc, bits)[k] < 256
    decreases |syms|
  {
    if |syms| >= 2 {
      var s := PairStep(acc, bits, syms[0], syms[1]);
      LowBytesInRange(BitOr(acc, Shl(syms[0] + Radix * syms[1], bits)), |s.out|);
      DecodeBytesInRange(syms[2..], s.acc, s.bits);
    }
  }

  lemma {:induction false} LowBytesInRange(x: nat, n: nat)
    ensures forall k :: 0 <= k < n ==> 0 <= LowBytes(x, n)[k] < 256
    decreases n
  {
    if n > 0 {
      LowBytesInRange(x, n - 1);
    }
  }

  /** Each pair yields one or two bytes and an unpaired last symbol one more, so the
      output length is fixed by the symbol count up to one byte per pair. */
  lemma {:induction false} DecodeLength(syms: seq<nat>, acc: nat, bits: nat)
    requires bits <= 7
    ensures |syms| / 2 + |syms| % 2 <= |DecodeFrom(syms, acc, bits)| <= 2 * (|syms| / 2) + |syms| % 2
    decreases |syms|
  {
    if |syms| >= 2 {
      var s := PairStep(acc, bits, syms[0], syms[1]);
      assert 8 <= bits + Width(syms[0] + Radix * syms[1]) <= 21;
      DecodeLength(syms[2..], s.acc, s.bits);
    }
  }

  /** A final unpaired symbol adds exactly one byte to what the pairs before it
      decode to. */
  lemma {:induction false} UnpairedAddsOneByte(a: seq<nat>, x: nat, acc: nat, bits: nat)
    requires |a| % 2 == 0
    ensures |DecodeFrom(a + [x], acc, bits)| == |DecodeFrom(a, acc, bits)| + 1
    decreases |a|
  {
    if |a| > 0 {
      var s := PairStep(acc, bits, a[0], a[1]);
      assert (a + [x])[2..] == a[2..] + [x];
      UnpairedAddsOneByte(a[2..], x, s.acc, s.bits);
    }
  }

  /** Appending symbols after an even number of them only appends output: the bytes
      already produced never change, which is what lets the loop emit them early. */
  lemma {:induction false} DecodePrefix(a: seq<nat>, b: seq<nat>, acc: nat, bits: nat)
    requires |a| % 2 == 0
    ensures |DecodeFrom(a, acc, bits)| <= |DecodeFrom(a + b, acc, bits)|
    ensures DecodeFrom(a + b, acc, bits)[..|DecodeFrom(a, acc, bits)|] == DecodeFrom(a, acc, bits)
    decreases |a|
  {
    if |a| == 0 {
      assert a + b == b;
    } else {
      var s := PairStep(acc, bits, a[0], a[1]);
      assert (a + b)[0] == a[0] && (a + b)[1] == a[1];
      assert (a + b)[2..] == a[2..] + b;
      DecodePrefix(a[2..], b, s.acc, s.bits);
    }
  }

  /** The symbols of two pieces of text are the symbols of each, in order. */
  lemma {:induction false} SymbolsConcat(alphabet: string, s: string, t: string)
    ensures Symbols(alphabet, s + t) == Symbols(alphabet, s) + Symbols(alphabet, t)
    decreases |s|
  {
    if |s| == 0 {
      assert s + t == t;
    } else {
      assert (s + t)[0] == s[0];
      assert (s + t)[1..] == s[1..] + t;
      SymbolsConcat(alphabet, s[1..], t);
    }
  }

  /** A character that is not in the alphabet is skipped: removing it from the seed
      does not change the output. */
  lemma SkipForeign(alphabet: string, s: string, c: char, t: string)
    requires !JsStrings.Contains(alphabet, [c])
    ensures Decode(alphabet, Some(s + [c] + t)) == Decode(alphabet, Some(s + t))
  {
    SymbolsConcat(alphabet, s + [c], t);
    SymbolsConcat(alphabet, s, [c]);
    SymbolsConcat(alphabet, s, t);
    assert Symbols(alphabet, [c]) == [] by {
      var idx := JsStrings.IndexOf(alphabet, [c], 0);
      assert idx == -1;
      assert [c][1..] == [];
    }
    assert Symbols(alphabet, s + [c]) == Symbols(alphabet, s);
    assert Symbols(alphabet, s + [c] + t) == Symbols(alphabet, s + t);
  }
}
