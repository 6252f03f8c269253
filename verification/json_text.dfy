// What a JSON string literal denotes (RFC 8259, sections 7 and 8.2), in UTF-16 code
// units, and the two encoders that write literals.  A char is a character here.
module JsonText {
  import opened Text
  import opened JsonScan
  import opened ToolMessages
  import opened SystemContent

  // ----- code units --------------------------------------------------------

  function Units(c: char): seq<int>
  {
    var n := c as int;
    if n < 0x1_0000 then [n] else [0xD800 + (n - 0x1_0000) / 0x400, 0xDC00 + (n - 0x1_0000) % 0x400]
  }

  function UnitsOf(s: string): seq<int>
  {
    if |s| == 0 then [] else Units(s[0]) + UnitsOf(s[1..])
  }

  function DigitValue(c: char): int
  {
    if '0' <= c <= '9' then c as int - '0' as int
    else if 'a' <= c <= 'f' then c as int - 'a' as int + 10
    else if 'A' <= c <= 'F' then c as int - 'A' as int + 10
    else 0
  }

  function HexValue(hex: string): int
    requires |hex| == 4
  {
    ((DigitValue(hex[0]) * 16 + DigitValue(hex[1])) * 16 + DigitValue(hex[2])) * 16 + DigitValue(hex[3])
  }

  function Hex4(n: nat): (hex: string)
    requires n < 0x1_0000
    ensures |hex| == 4 && forall i :: 0 <= i < 4 ==> HexDigit(hex[i])
  {
    [HexChar(n / 0x1000), HexChar(n / 0x100 % 16), HexChar(n / 16 % 16), HexChar(n % 16)]
  }

  lemma HexDigitReadsBack(n: nat)
    requires n < 16
    ensures DigitValue(HexChar(n)) == n
  {
  }

  lemma FourDigits(n: nat, a: nat, b: nat, c: nat, d: nat)
    requires n < 0x1_0000 && a == n / 0x1000 && b == n / 0x100 % 16 && c == n / 16 % 16 && d == n % 16
    ensures a < 16 && ((a * 16 + b) * 16 + c) * 16 + d == n
  {
    assert n / 16 / 16 == n / 0x100 && n / 0x100 / 16 == n / 0x1000;
    assert n / 0x100 == 16 * a + b;
    assert n / 16 == 16 * (n / 0x100) + c;
  }

  lemma HexReadsBack(n: nat)
    requires n < 0x1_0000
    ensures HexValue(Hex4(n)) == n
  {
    var a, b, c, d := n / 0x1000, n / 0x100 % 16, n / 16 % 16, n % 16;
    FourDigits(n, a, b, c, d);
    HexDigitReadsBack(a);
    HexDigitReadsBack(b);
    HexDigitReadsBack(c);
    HexDigitReadsBack(d);
    hide DigitValue, HexChar;
    assert Hex4(n) == [HexChar(a), HexChar(b), HexChar(c), HexChar(d)];
  }

  /** The code units one part of a literal stands for. */
  function Denotes(p: Part): seq<int>
    requires LegalPart(p)
  {
    match p
    case Plain(c) => Units(c)
    case Escaped(c) =>
      [if c == 'b' then 8 else if c == 'f' then 12 else if c == 'n' then 10 else if c == 'r' then 13
       else if c == 't' then 9 else c as int]
    case Unicode(hex) => [HexValue(hex)]
  }

  function Denoted(parts: seq<Part>): seq<int>
    requires LegalParts(parts)
  {
    if |parts| == 0 then [] else Denotes(parts[0]) + Denoted(parts[1..])
  }

  // ----- encoders ----------------------------------------------------------

  type Speller = char -> Part

  function Spell(f: Speller, s: string): seq<Part>
  {
    seq(|s|, i requires 0 <= i < |s| => f(s[i]))
  }

  /** Every character is written as a legal part that denotes it. */
  ghost predicate Correct(f: Speller)
  {
    forall c :: LegalPart(f(c)) && Denotes(f(c)) == Units(c)
  }

  lemma {:induction false} SpelledDenotes(f: Speller, s: string)
    requires Correct(f)
    ensures LegalParts(Spell(f, s)) && Denoted(Spell(f, s)) == UnitsOf(s)
  {
    if |s| > 0 {
      SpelledDenotes(f, s[1..]);
      assert Spell(f, s)[1..] == Spell(f, s[1..]);
    }
  }

  /** The proxy's own encoder, part by part. */
  function Escape(c: char): Part
  {
    if c == '"' || c == '\\' then Escaped(c)
    else if c == '\U{0008}' then Escaped('b')
    else if c == '\U{000C}' then Escaped('f')
    else if c == '\n' then Escaped('n')
    else if c == '\r' then Escaped('r')
    else if c == '\t' then Escaped('t')
    else if c < ' ' then Unicode(Hex4(c as int))
    else Plain(c)
  }

  lemma SmallUnit(c: char)
    ensures c as int < 0x1_0000 ==> Units(c) == [c as int]
  {
  }

  lemma EscapedIsCorrect(c: char)
    ensures LegalPart(Escape(c)) && Denotes(Escape(c)) == Units(c)
  {
    SmallUnit(c);
    hide Units, Hex4, HexValue, HexDigit;
    if Escape(c).Unicode? {
      SpelledInHex(c);
    }
  }

  lemma EscapeIsCorrect()
    ensures Correct(Escape)
  {
    forall c
      ensures LegalPart(Escape(c)) && Denotes(Escape(c)) == Units(c)
    {
      EscapedIsCorrect(c);
      hide Escape;
    }
  }

  /** Four hexadecimal digits denote the character they were taken from. */
  lemma SpelledInHex(c: char)
    requires c as int < 0x1_0000
    ensures var p := Unicode(Hex4(c as int)); LegalPart(p) && Denotes(p) == Units(c)
  {
    HexReadsBack(c as int);
    hide Hex4, HexValue, HexDigit;
  }

  lemma ControlHex(n: nat)
    requires n < 32
    ensures Hex4(n) == ['0', '0', HexChar(n / 16), HexChar(n % 16)]
  {
    assert n / 0x1000 == 0 && n / 0x100 == 0;
  }

  lemma EscapePrints(c: char)
    ensures PrintPart(Escape(c)) == EncodeChar(c)
  {
    hide Hex4, HexChar;
    if Escape(c).Unicode? {
      ControlHex(c as int);
    }
  }

  lemma {:induction false} EscapedPrints(s: string)
    ensures PrintParts(Spell(Escape, s)) == EncodeBody(s)
  {
    if |s| > 0 {
      EscapePrints(s[0]);
      EscapedPrints(s[1..]);
      assert Spell(Escape, s)[1..] == Spell(Escape, s[1..]);
    }
  }

  function UnicodeParts(parts: seq<Part>): nat
  {
    if |parts| == 0 then 0 else (if parts[0].Unicode? then 1 else 0) + UnicodeParts(parts[1..])
  }

  lemma {:induction false} UnitsConcat(s: string, t: string)
    ensures UnitsOf(s + t) == UnitsOf(s) + UnitsOf(t)
  {
    hide *;
    if |s| == 0 {
      assert s == "" && s + t == t;
      NoUnits();
    } else {
      UnitsConcat(s[1..], t);
      UnitsFront(s);
      UnitsFront(s + t);
      assert (s + t)[0] == s[0] && (s + t)[1..] == s[1..] + t;
    }
  }

  lemma NoUnits()
    ensures UnitsOf("") == []
  {
  }

  lemma UnitsFront(s: string)
    requires |s| > 0
    ensures UnitsOf(s) == Units(s[0]) + UnitsOf(s[1..])
  {
    hide Units;
  }

  lemma PartMeaningUnits(p: Part)
    requires LegalPart(p)
    ensures |UnitsOf(PartMeaning(p))| == |Denotes(p)| + if p.Unicode? then 5 else 0
    ensures !p.Unicode? ==> UnitsOf(PartMeaning(p)) == Denotes(p)
  {
    match p
    case Plain(c) => OneUnit(c);
    case Escaped(c) => OneUnit(UnescapePair(c)[0]);
      assert PartMeaning(p) == [UnescapePair(c)[0]];
    case Unicode(hex) =>
      AsciiUnits(['\\', 'u'] + hex);
  }

  lemma OneUnit(c: char)
    ensures UnitsOf([c]) == Units(c)
  {
    assert [c][1..] == "";
  }

  lemma {:induction false} AsciiUnits(s: string)
    requires forall i :: 0 <= i < |s| ==> s[i] as int < 0x80
    ensures |UnitsOf(s)| == |s|
  {
    if |s| > 0 {
      AsciiUnits(s[1..]);
    }
  }

  /** The decoders' text has the literal's own code units, but for five more for every
      \uXXXX they leave as it is. */
  lemma {:induction false} MeaningUnits(parts: seq<Part>)
    requires LegalParts(parts)
    ensures |UnitsOf(Meaning(parts))| == |Denoted(parts)| + 5 * UnicodeParts(parts)
    ensures UnicodeParts(parts) == 0 ==> UnitsOf(Meaning(parts)) == Denoted(parts)
  {
    if |parts| > 0 {
      PartMeaningUnits(parts[0]);
      MeaningUnits(parts[1..]);
      UnitsConcat(PartMeaning(parts[0]), Meaning(parts[1..]));
    }
  }

  /** Decoding a literal and encoding it again denotes the same text exactly when the
      literal has no \uXXXX. */
  lemma {:induction false} ReencodingKeepsTheTextIff(parts: seq<Part>)
    requires LegalParts(parts)
    ensures var again := Spell(Escape, Meaning(parts));
            && PrintParts(again) == EncodeBody(Meaning(parts)) && LegalParts(again)
            && (Denoted(again) == Denoted(parts) <==> forall i :: 0 <= i < |parts| ==> !parts[i].Unicode?)
  {
    EscapedPrints(Meaning(parts));
    EscapeIsCorrect();
    SpelledDenotes(Escape, Meaning(parts));
    MeaningUnits(parts);
    NoUnicodeParts(parts);
  }

  lemma {:induction false} NoUnicodeParts(parts: seq<Part>)
    ensures UnicodeParts(parts) == 0 <==> forall i :: 0 <= i < |parts| ==> !parts[i].Unicode?
  {
    if |parts| > 0 {
      NoUnicodeParts(parts[1..]);
      assert forall i :: 0 <= i < |parts| - 1 ==> parts[1..][i] == parts[i + 1];
      assert forall i :: 0 < i < |parts| ==> parts[i] == parts[1..][i - 1];
    }
  }

  // ----- json.Marshal ------------------------------------------------------

  /** What json.Marshal and its compaction of raw messages escape for HTML. */
  predicate HtmlSpecial(c: char)
  {
    c == '<' || c == '>' || c == '&' || c == '\U{2028}' || c == '\U{2029}'
  }

  /** How json.Marshal of Go 1.21 writes a character. */
  function Marshal(c: char): Part
  {
    if c == '"' || c == '\\' then Escaped(c)
    else if c == '\n' then Escaped('n')
    else if c == '\r' then Escaped('r')
    else if c == '\t' then Escaped('t')
    else if c < ' ' || HtmlSpecial(c) then Unicode(Hex4(c as int))
    else Plain(c)
  }

  lemma MarshalledIsCorrect(c: char)
    ensures LegalPart(Marshal(c)) && Denotes(Marshal(c)) == Units(c)
  {
    SmallUnit(c);
    hide Units, Hex4, HexValue, HexDigit;
    if Marshal(c).Unicode? {
      SpelledInHex(c);
    }
  }

  lemma MarshalIsCorrect()
    ensures Correct(Marshal)
  {
    forall c
      ensures LegalPart(Marshal(c)) && Denotes(Marshal(c)) == Units(c)
    {
      MarshalledIsCorrect(c);
      hide Marshal;
    }
  }

  lemma HexIsInjective(m: nat, n: nat)
    requires m < 0x1_0000 && n < 0x1_0000 && Hex4(m) == Hex4(n)
    ensures m == n
  {
    HexReadsBack(m);
    HexReadsBack(n);
  }

  lemma MarshalIsInjective(c: char, d: char)
    requires Marshal(c) == Marshal(d)
    ensures c == d
  {
    if Marshal(c).Unicode? {
      HexIsInjective(c as int, d as int);
    }
  }

  /** The bytes of a legal literal determine its parts. */
  lemma {:induction false} PrintIsInjective(a: seq<Part>, b: seq<Part>)
    requires LegalParts(a) && LegalParts(b) && PrintParts(a) == PrintParts(b)
    ensures a == b
  {
    if |a| > 0 && |b| > 0 {
      var x, y := PrintParts(a[1..]), PrintParts(b[1..]);
      FirstPartIsDetermined(a[0], b[0], x, y);
      var n := |PrintPart(a[0])|;
      assert (PrintPart(a[0]) + x)[n..] == x && (PrintPart(b[0]) + y)[n..] == y;
      PrintIsInjective(a[1..], b[1..]);
      assert a == [a[0]] + a[1..] && b == [b[0]] + b[1..];
    }
  }

  lemma FirstPartIsDetermined(p: Part, q: Part, x: string, y: string)
    requires LegalPart(p) && LegalPart(q) && PrintPart(p) + x == PrintPart(q) + y
    ensures p == q
  {
    var s, t := PrintPart(p) + x, PrintPart(q) + y;
    assert s[0] == t[0];
    if s[0] == '\\' {
      assert s[1] == t[1];
      if p.Unicode? && q.Unicode? {
        assert s[2..6] == p.hex && t[2..6] == q.hex;
      }
    }
  }
}
