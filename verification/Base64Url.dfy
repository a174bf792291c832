/** Unpadded base64url (RFC 4648, sections 3.2 and 5): the encoder, and the lenient decoder that
    restores the padding and skips what is not in the alphabet. */
module Base64Url {
  import opened Outcomes

  type Byte = n: int | 0 <= n < 256

  type Sextet = n: int | 0 <= n < 64

  // ----- characters -----

  function Letter(v: Sextet): char {
    if v < 26 then 'A' + v as char
    else if v < 52 then 'a' + (v - 26) as char
    else if v < 62 then '0' + (v - 52) as char
    else if v == 62 then '-' else '_'
  }

  /** What the decoder sees in a character: a digit of the URL alphabet or of the standard one, a
      padding sign, or nothing. */
  datatype Symbol = Digit(v: Sextet) | Pad | Skipped

  function Classify(c: char): Symbol {
    if 'A' <= c <= 'Z' then Digit(c as int - 'A' as int)
    else if 'a' <= c <= 'z' then Digit(c as int - 'a' as int + 26)
    else if '0' <= c <= '9' then Digit(c as int - '0' as int + 52)
    else if c == '-' || c == '+' then Digit(62)
    else if c == '_' || c == '/' then Digit(63)
    else if c == '=' then Pad
    else Skipped
  }

  lemma ClassifyLetter(v: Sextet)
    ensures Classify(Letter(v)) == Digit(v) && (Letter(v) as int) < 128
  {
  }

  /** The digits in order: capital letters, small letters, figures, and two signs. */
  lemma AlphabetInOrder(v: Sextet)
    ensures Letter(0) == 'A' && Letter(25) == 'Z' && Letter(26) == 'a' && Letter(51) == 'z'
    ensures Letter(52) == '0' && Letter(61) == '9' && Letter(62) == '-' && Letter(63) == '_'
    ensures v !in {25, 51} && v < 61 ==> Letter(v + 1) == Letter(v) + 1 as char
  {
  }

  function Letters(digits: seq<Sextet>): string {
    seq(|digits|, i requires 0 <= i < |digits| => Letter(digits[i]))
  }

  function Symbols(s: string): seq<Symbol> {
    seq(|s|, i requires 0 <= i < |s| => Classify(s[i]))
  }

  function Digits(digits: seq<Sextet>): seq<Symbol> {
    seq(|digits|, i requires 0 <= i < |digits| => Digit(digits[i]))
  }

  function Pads(n: nat): seq<Symbol> { seq(n, _ => Pad) }

  lemma SymbolsOfLetters(digits: seq<Sextet>, n: nat)
    ensures Symbols(Letters(digits) + seq(n, _ => '=')) == Digits(digits) + Pads(n)
    ensures forall c :: c in Letters(digits) ==> (c as int) < 128
  {
    var s := Letters(digits) + seq(n, _ => '=');
    forall i | 0 <= i < |s| ensures Symbols(s)[i] == (Digits(digits) + Pads(n))[i] {
      if i < |digits| { ClassifyLetter(digits[i]); }
    }
    forall c | c in Letters(digits) ensures (c as int) < 128 {
      var i :| 0 <= i < |digits| && c == Letters(digits)[i];
      ClassifyLetter(digits[i]);
    }
  }

  // ----- encoding -----

  /** One group of one to three bytes as two to four digits. */
  function Group(a: Byte, b: Option<Byte>, c: Option<Byte>): seq<Sextet> {
    var second := if b.Some? then b.value else 0;
    var third := if c.Some? then c.value else 0;
    [a / 4, a % 4 * 16 + second / 16] +
    (if b.Some? then [second % 16 * 4 + third / 64] else []) +
    (if c.Some? then [third % 64] else [])
  }

  /** The digits of a group spell, to base 64, what its bytes spell to base 256, with zero bits added at the end. */
  lemma GroupMeaning(a: Byte, b: Byte, c: Byte)
    ensures var one, two, three := Group(a, None, None), Group(a, Some(b), None), Group(a, Some(b), Some(c));
      && |one| == 2 && one[0] as int * 64 + one[1] == a as int * 16
      && |two| == 3 && (two[0] as int * 64 + two[1]) * 64 + two[2] == (a as int * 256 + b) * 4
      && |three| == 4 && ((three[0] as int * 64 + three[1]) * 64 + three[2]) * 64 + three[3] == (a as int * 256 + b) * 256 + c
  {
  }

  /** Groups of three bytes to four digits; a shorter last group gets no padding. */
  function Sextets(b: seq<Byte>): seq<Sextet>
    decreases |b|
  {
    if |b| == 0 then []
    else if |b| == 1 then Group(b[0], None, None)
    else if |b| == 2 then Group(b[0], Some(b[1]), None)
    else Group(b[0], Some(b[1]), Some(b[2])) + Sextets(b[3..])
  }

  function Encode(b: seq<Byte>): string { Letters(Sextets(b)) }

  // ----- decoding -----

  /** The decoder between two symbols: its place in a group of four, the bits left over, the padding
      seen in the group, whether the data has ended, and the bytes so far. */
  datatype Decoder = Decoder(quad: int, left: int, pads: int, ended: bool, out: seq<Byte>)
  {
    ghost predicate Valid() {
      && 0 <= quad < 4 && pads >= 0 && 0 <= left < 64
      && (quad == 2 ==> left < 16) && (quad == 3 ==> left < 4)
    }

    function Step(x: Symbol): (d: Decoder)
      requires Valid()
      ensures d.Valid()
    {
      if ended || x.Skipped? then this
      else if x.Pad? then
        if quad >= 2 then this.(pads := pads + 1, ended := quad + pads + 1 >= 4) else this
      else if quad == 0 then Decoder(1, x.v, 0, false, out)
      else if quad == 1 then Decoder(2, x.v % 16, 0, false, out + [left * 4 + x.v / 16])
      else if quad == 2 then Decoder(3, x.v % 4, 0, false, out + [left * 16 + x.v / 4])
      else Decoder(0, 0, 0, false, out + [left * 64 + x.v])
    }
  }

  function Run(d: Decoder, xs: seq<Symbol>): (r: Decoder)
    requires d.Valid()
    ensures r.Valid()
    decreases |xs|
  {
    if xs == [] then d else Run(d.Step(xs[0]), xs[1..])
  }

  function Clean(out: seq<Byte>): Decoder { Decoder(0, 0, 0, false, out) }

  /** How much padding a length lacks: the remainder of its negation by four. */
  function Missing(n: nat): nat { (4 - n % 4) % 4 }

  /** Restores the padding and decodes; fails on non-ASCII characters and on incomplete groups. */
  function Decode(s: string): Outcome<seq<Byte>> {
    if exists c :: c in s && c as int >= 128 then Outcome([], Some(ValueError))
    else
      var d := Run(Clean([]), Symbols(s + seq(Missing(|s|), _ => '=')));
      if d.ended || d.quad == 0 then Done(d.out) else Outcome([], Some(ValueError))
  }

  // ----- the round trip -----

  lemma RunCons(d: Decoder, x: Symbol, xs: seq<Symbol>)
    requires d.Valid()
    ensures Run(d, [x] + xs) == Run(d.Step(x), xs)
  {
    assert ([x] + xs)[1..] == xs;
  }

  lemma TwoDigits(out: seq<Byte>, a: Byte, s1: Sextet, xs: seq<Symbol>)
    requires s1 / 16 == a % 4
    ensures Run(Clean(out), [Digit(a / 4)] + ([Digit(s1)] + xs)) == Run(Decoder(2, s1 % 16, 0, false, out + [a]), xs)
  {
    RunCons(Clean(out), Digit(a / 4), [Digit(s1)] + xs);
    RunCons(Clean(out).Step(Digit(a / 4)), Digit(s1), xs);
  }

  lemma LastOne(out: seq<Byte>, a: Byte)
    ensures var d := Run(Clean(out), Digits(Group(a, None, None)) + Pads(2)); d.ended && d.out == out + [a]
  {
    var s1 := a % 4 * 16;
    TwoDigits(out, a, s1, [Pad] + [Pad]);
    assert Digits(Group(a, None, None)) + Pads(2) == [Digit(a / 4)] + ([Digit(s1)] + ([Pad] + [Pad]));
    var d := Decoder(2, s1 % 16, 0, false, out + [a]);
    RunCons(d, Pad, [Pad]);
    RunCons(d.Step(Pad), Pad, []);
    assert [Pad] + [] == [Pad];
  }

  lemma LastTwo(out: seq<Byte>, a: Byte, b: Byte)
    ensures var d := Run(Clean(out), Digits(Group(a, Some(b), None)) + Pads(1)); d.ended && d.out == out + [a, b]
  {
    var s1, s2 := a % 4 * 16 + b / 16, b % 16 * 4;
    TwoDigits(out, a, s1, [Digit(s2)] + [Pad]);
    assert Digits(Group(a, Some(b), None)) + Pads(1) == [Digit(a / 4)] + ([Digit(s1)] + ([Digit(s2)] + [Pad]));
    var d := Decoder(2, s1 % 16, 0, false, out + [a]);
    RunCons(d, Digit(s2), [Pad]);
    RunCons(d.Step(Digit(s2)), Pad, []);
    assert [Pad] + [] == [Pad] && out + [a] + [b] == out + [a, b];
  }

  lemma FourDigits(w: Sextet, x: Sextet, y: Sextet, z: Sextet, xs: seq<Symbol>)
    ensures Digits([w, x] + [y] + [z]) + xs == [Digit(w)] + ([Digit(x)] + ([Digit(y)] + ([Digit(z)] + xs)))
  {
  }

  lemma LastDigits(out: seq<Byte>, b: Byte, c: Byte, xs: seq<Symbol>)
    ensures Run(Decoder(2, b / 16, 0, false, out), [Digit(b % 16 * 4 + c / 64)] + ([Digit(c % 64)] + xs)) ==
      Run(Clean(out + [b] + [c]), xs)
  {
    var d, s2 := Decoder(2, b / 16, 0, false, out), b % 16 * 4 + c / 64;
    ThirdDigit(b, c);
    assert d.Step(Digit(s2)) == Decoder(3, c / 64, 0, false, out + [b]);
    RunCons(d, Digit(s2), [Digit(c % 64)] + xs);
    RunCons(d.Step(Digit(s2)), Digit(c % 64), xs);
  }

  lemma ThirdDigit(b: Byte, c: Byte)
    ensures var v := b % 16 * 4 + c / 64; v / 4 == b % 16 && v % 4 == c / 64
    ensures b / 16 * 16 + b % 16 == b && c / 64 * 64 + c % 64 == c
  {
  }

  lemma FullGroup(out: seq<Byte>, a: Byte, b: Byte, c: Byte, xs: seq<Symbol>)
    ensures Run(Clean(out), Digits(Group(a, Some(b), Some(c))) + xs) == Run(Clean(out + [a, b, c]), xs)
  {
    var s1, s2, s3 := a % 4 * 16 + b / 16, b % 16 * 4 + c / 64, c % 64;
    TwoDigits(out, a, s1, [Digit(s2)] + ([Digit(s3)] + xs));
    FourDigits(a / 4, s1, s2, s3, xs);
    LastDigits(out + [a], b, c, xs);
    assert out + [a] + [b] + [c] == out + [a, b, c];
  }

  /** The decoder, given padded digits after the bytes `out`, ends properly with `b` appended. */
  ghost predicate Yields(digits: seq<Sextet>, out: seq<Byte>, b: seq<Byte>) {
    var d := Run(Clean(out), Digits(digits) + Pads(Missing(|digits|)));
    (d.ended || d.quad == 0) && d.out == out + b
  }

  lemma YieldsGroup(out: seq<Byte>, a: Byte, b: Byte, c: Byte, digits: seq<Sextet>, rest: seq<Byte>)
    requires Yields(digits, out + [a, b, c], rest)
    ensures Yields(Group(a, Some(b), Some(c)) + digits, out, [a, b, c] + rest)
  {
    var group, pads := Group(a, Some(b), Some(c)), Pads(Missing(|digits|));
    FullGroup(out, a, b, c, Digits(digits) + pads);
    assert |group| == 4 && Missing(|group + digits|) == Missing(|digits|);
    assert Digits(group + digits) + pads == Digits(group) + (Digits(digits) + pads);
    assert out + [a, b, c] + rest == out + ([a, b, c] + rest);
  }

  lemma {:induction false} RunSextets(out: seq<Byte>, b: seq<Byte>)
    ensures Yields(Sextets(b), out, b)
    decreases |b|
  {
    if |b| == 0 {
      assert out + b == out;
    } else if |b| == 1 {
      LastOne(out, b[0]);
      assert b == [b[0]];
    } else if |b| == 2 {
      LastTwo(out, b[0], b[1]);
      assert b == [b[0], b[1]];
    } else {
      RunSextets(out + [b[0], b[1], b[2]], b[3..]);
      YieldsGroup(out, b[0], b[1], b[2], Sextets(b[3..]), b[3..]);
      assert b == [b[0], b[1], b[2]] + b[3..];
    }
  }

  /** Decoding inverts encoding on every byte string. */
  lemma RoundTrip(b: seq<Byte>)
    ensures Decode(Encode(b)) == Done(b)
  {
    SymbolsOfLetters(Sextets(b), Missing(|Sextets(b)|));
    RunSextets([], b);
    assert [] + b == b;
  }

  /** Different byte strings have different encodings. */
  lemma EncodeInjective(a: seq<Byte>, b: seq<Byte>)
    ensures Encode(a) == Encode(b) <==> a == b
  {
    RoundTrip(a);
    RoundTrip(b);
  }
}
