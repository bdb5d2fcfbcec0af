/** The snippet record and the stable UID that the generation path gives it.

    A UID is the keyword, a dash, and the uppercase hexadecimal code points of
    the emoji joined by dashes (`smiley-1F603`). Characters are Unicode scalar
    values, so `c as int` is the code point that Python's `ord` returns.
 */
module Snippets {

  datatype Option<T> = None | Some(value: T)

  /** One snippet of a pack, with the four fields the comparison and the
      archive writer read. */
  datatype AlfredSnippet = AlfredSnippet(keyword: string, name: string, snippet: string, uid: string)

  // ---------------------------------------------------------------------------
  // Hexadecimal numerals, as the format specification "X" writes them
  // ---------------------------------------------------------------------------

  predicate IsHexDigit(c: char)
  {
    '0' <= c <= '9' || 'A' <= c <= 'F'
  }

  function DigitValue(c: char): (d: nat)
    requires IsHexDigit(c)
    ensures d < 16
  {
    if c <= '9' then c as int - '0' as int else c as int - 'A' as int + 10
  }

  /** The uppercase digit for a value below sixteen. */
  function HexDigit(d: nat): (c: char)
    requires d < 16
    ensures IsHexDigit(c) && DigitValue(c) == d
  {
    if d < 10 then ('0' as int + d) as char else ('A' as int + d - 10) as char
  }

  /** The uppercase hexadecimal numeral of n, without prefix and without padding. */
  function Hex(n: nat): (h: string)
    ensures |h| > 0
    ensures forall i :: 0 <= i < |h| ==> IsHexDigit(h[i])
    ensures h[0] == '0' <==> n == 0
    decreases n
  {
    if n < 16 then [HexDigit(n)] else Hex(n / 16) + [HexDigit(n % 16)]
  }

  /** The value of a numeral of hexadecimal digits, most significant first. */
  function HexValue(h: string): nat
    requires forall i :: 0 <= i < |h| ==> IsHexDigit(h[i])
  {
    if h == [] then 0 else HexValue(h[..|h| - 1]) * 16 + DigitValue(h[|h| - 1])
  }

  lemma {:induction false} HexValueOfHex(n: nat)
    ensures HexValue(Hex(n)) == n
    decreases n
  {
    if n >= 16 {
      var h := Hex(n);
      assert h[..|h| - 1] == Hex(n / 16);
      HexValueOfHex(n / 16);
    }
  }

  /** Distinct code points have distinct numerals. */
  lemma HexInjective(m: nat, n: nat)
    ensures Hex(m) == Hex(n) ==> m == n
  {
    HexValueOfHex(m);
    HexValueOfHex(n);
  }

  // ---------------------------------------------------------------------------
  // Joining on "-" (Python's "-".join) and its inverse
  // ---------------------------------------------------------------------------

  function JoinDash(parts: seq<string>): string
  {
    if |parts| == 0 then ""
    else if |parts| == 1 then parts[0]
    else parts[0] + "-" + JoinDash(parts[1..])
  }

  /** The fields between the dashes of s; the empty string has one empty field. */
  function SplitDash(s: string): (parts: seq<string>)
    ensures |parts| > 0
    decreases |s|
  {
    if s == [] then [""]
    else
      var rest := SplitDash(s[1..]);
      if s[0] == '-' then [""] + rest else [[s[0]] + rest[0]] + rest[1..]
  }

  lemma {:induction false} SplitDashPrefix(a: string, t: string)
    requires '-' !in a
    ensures SplitDash(a + t) == [a + SplitDash(t)[0]] + SplitDash(t)[1..]
    decreases |a|
  {
    if a != [] {
      assert (a + t)[1..] == a[1..] + t;
      SplitDashPrefix(a[1..], t);
      var rest := SplitDash(a[1..] + t);
      assert (a + t)[0] == a[0] != '-';
      assert a == [a[0]] + a[1..];
      assert SplitDash(a + t) == [[a[0]] + rest[0]] + rest[1..];
      assert rest[0] == a[1..] + SplitDash(t)[0];
      assert rest[1..] == SplitDash(t)[1..];
      assert [a[0]] + (a[1..] + SplitDash(t)[0]) == a + SplitDash(t)[0];
    } else {
      assert a + t == t && a + SplitDash(t)[0] == SplitDash(t)[0];
    }
  }

  /** Splitting undoes joining when no part holds a dash. */
  lemma {:induction false} SplitJoin(parts: seq<string>)
    requires |parts| > 0
    requires forall i :: 0 <= i < |parts| ==> '-' !in parts[i]
    ensures SplitDash(JoinDash(parts)) == parts
  {
    if |parts| == 1 {
      SplitDashPrefix(parts[0], "");
      assert parts[0] + "" == parts[0];
    } else {
      var rest := JoinDash(parts[1..]);
      assert parts[0] + "-" + rest == parts[0] + ("-" + rest);
      SplitDashPrefix(parts[0], "-" + rest);
      assert ("-" + rest)[1..] == rest;
      SplitJoin(parts[1..]);
      assert parts[0] + "" == parts[0];
      assert parts == [parts[0]] + parts[1..];
    }
  }

  lemma {:induction false} JoinDashAlphabet(parts: seq<string>)
    requires forall i, j :: 0 <= i < |parts| && 0 <= j < |parts[i]| ==> IsHexDigit(parts[i][j])
    ensures forall j :: 0 <= j < |JoinDash(parts)| ==> IsHexDigit(JoinDash(parts)[j]) || JoinDash(parts)[j] == '-'
  {
    if |parts| > 1 {
      JoinDashAlphabet(parts[1..]);
      var r := JoinDash(parts);
      var rest := JoinDash(parts[1..]);
      assert r == parts[0] + "-" + rest;
      forall j | 0 <= j < |r|
        ensures IsHexDigit(r[j]) || r[j] == '-'
      {
        if j < |parts[0]| {
          assert r[j] == parts[0][j];
        } else if j > |parts[0]| {
          assert r[j] == rest[j - |parts[0]| - 1];
        }
      }
    }
  }

  lemma JoinDashNonEmpty(parts: seq<string>)
    requires |parts| > 0 && |parts[0]| > 0
    ensures |JoinDash(parts)| > 0
  {
  }

  // ---------------------------------------------------------------------------
  // generate_uid
  // ---------------------------------------------------------------------------

  /** The numeral of each character of the emoji, in input order. */
  function HexFields(emoji: string): (fs: seq<string>)
  {
    seq(|emoji|, i requires 0 <= i < |emoji| => Hex(emoji[i] as int))
  }

  /** The dash-joined code points: the `hex_codes` of generate_uid. */
  function HexCodes(emoji: string): (h: string)
    ensures h == "" <==> emoji == []
  {
    JoinDash(HexFields(emoji))
  }

  /** The stable identifier of a snippet with this keyword and emoji payload. */
  function GenerateUid(keyword: string, emoji: string): string
  {
    keyword + "-" + HexCodes(emoji)
  }

  /** The code points an emoji string is made of. */
  function CodePoints(emoji: string): seq<nat>
  {
    seq(|emoji|, i requires 0 <= i < |emoji| => emoji[i] as int)
  }

  /** A numeral field, or None if it is empty or holds a non-digit. */
  function ParseField(f: string): Option<nat>
  {
    if |f| > 0 && forall i :: 0 <= i < |f| ==> IsHexDigit(f[i]) then Some(HexValue(f)) else None
  }

  function ParseFields(fs: seq<string>): Option<seq<nat>>
  {
    if fs == [] then Some([])
    else
      match ParseField(fs[0])
      case None => None
      case Some(v) =>
        match ParseFields(fs[1..])
        case None => None
        case Some(vs) => Some([v] + vs)
  }

  /** Reads a hex part back into code points; the inverse of HexCodes. */
  function ParseHexCodes(h: string): Option<seq<nat>>
  {
    if h == "" then Some([]) else ParseFields(SplitDash(h))
  }

  lemma {:induction false} ParseHexFields(emoji: string)
    ensures ParseFields(HexFields(emoji)) == Some(CodePoints(emoji))
    decreases |emoji|
  {
    if emoji != [] {
      var fs := HexFields(emoji);
      assert fs[1..] == HexFields(emoji[1..]);
      HexValueOfHex(emoji[0] as int);
      assert fs[0] == Hex(emoji[0] as int);
      assert ParseField(fs[0]) == Some(emoji[0] as int);
      ParseHexFields(emoji[1..]);
      assert fs != [];
      assert ParseFields(fs) == Some([emoji[0] as int] + CodePoints(emoji[1..]));
      assert CodePoints(emoji) == [emoji[0] as int] + CodePoints(emoji[1..]);
    } else {
      assert HexFields(emoji) == [] && CodePoints(emoji) == [];
    }
  }

  /** For a non-empty emoji the hex part has exactly one dash-separated field
      per character, the numeral of that character's code point. */
  lemma HexCodesFields(emoji: string)
    requires emoji != []
    ensures SplitDash(HexCodes(emoji)) == HexFields(emoji)
    ensures |SplitDash(HexCodes(emoji))| == |emoji|
    ensures forall i :: 0 <= i < |emoji| ==> SplitDash(HexCodes(emoji))[i] == Hex(emoji[i] as int)
  {
    var fs := HexFields(emoji);
    forall i | 0 <= i < |fs| ensures '-' !in fs[i] {
      assert forall j :: 0 <= j < |fs[i]| ==> IsHexDigit(fs[i][j]);
    }
    SplitJoin(fs);
  }

  /** Decoding the hex part gives back the code points of the emoji. */
  lemma ParseHexCodesRoundTrip(emoji: string)
    ensures ParseHexCodes(HexCodes(emoji)) == Some(CodePoints(emoji))
  {
    if emoji != [] {
      JoinDashNonEmpty(HexFields(emoji));
      assert HexCodes(emoji) != "";
      HexCodesFields(emoji);
      ParseHexFields(emoji);
      assert ParseHexCodes(HexCodes(emoji)) == ParseFields(HexFields(emoji));
    } else {
      assert HexFields(emoji) == [] && CodePoints(emoji) == [];
    }
  }

  lemma CodePointsInjective(e1: string, e2: string)
    requires CodePoints(e1) == CodePoints(e2)
    ensures e1 == e2
  {
    assert |e1| == |CodePoints(e1)| == |e2|;
    forall i | 0 <= i < |e1| ensures e1[i] == e2[i] {
      assert CodePoints(e1)[i] == CodePoints(e2)[i];
    }
  }

  /** The hex part determines the emoji. */
  lemma HexCodesInjective(e1: string, e2: string)
    ensures HexCodes(e1) == HexCodes(e2) ==> e1 == e2
  {
    if HexCodes(e1) == HexCodes(e2) {
      ParseHexCodesRoundTrip(e1);
      ParseHexCodesRoundTrip(e2);
      CodePointsInjective(e1, e2);
    }
  }

  /** The hex part holds only the digits 0-9, A-F and the dash. */
  lemma HexCodesAlphabet(emoji: string)
    ensures forall j :: 0 <= j < |HexCodes(emoji)| ==> IsHexDigit(HexCodes(emoji)[j]) || HexCodes(emoji)[j] == '-'
  {
    JoinDashAlphabet(HexFields(emoji));
  }

  /** A UID is the keyword, a dash, then the hex part. */
  lemma UidLayout(keyword: string, emoji: string)
    ensures |GenerateUid(keyword, emoji)| > |keyword|
    ensures GenerateUid(keyword, emoji)[..|keyword| + 1] == keyword + "-"
    ensures GenerateUid(keyword, emoji)[|keyword| + 1..] == HexCodes(emoji)
  {
  }

  /** For a fixed keyword, distinct emoji strings give distinct UIDs. */
  lemma UidInjectiveInEmoji(keyword: string, e1: string, e2: string)
    ensures GenerateUid(keyword, e1) == GenerateUid(keyword, e2) ==> e1 == e2
  {
    UidLayout(keyword, e1);
    UidLayout(keyword, e2);
    HexCodesInjective(e1, e2);
  }

  /** For a fixed emoji, distinct keywords give distinct UIDs. */
  lemma UidInjectiveInKeyword(k1: string, k2: string, emoji: string)
    ensures GenerateUid(k1, emoji) == GenerateUid(k2, emoji) ==> k1 == k2
  {
    var u1, u2 := GenerateUid(k1, emoji), GenerateUid(k2, emoji);
    if u1 == u2 {
      assert |k1| == |u1| - 1 - |HexCodes(emoji)| == |k2|;
      assert k1 == u1[..|k1|] == u2[..|k2|] == k2;
    }
  }

  /** The identifier of the "smiley" snippet, as the tests expect it. */
  lemma SmileyUid()
    ensures GenerateUid("smiley", "\U{1F603}") == "smiley-1F603"
  {
    SmileyHex();
    assert HexFields("\U{1F603}") == ["1F603"];
  }

  lemma SmileyHex()
    ensures Hex(0x1F603) == "1F603"
  {
    assert Hex(0x1) == "1";
    assert Hex(0x1F) == "1F";
    assert Hex(0x1F6) == "1F6";
    assert Hex(0x1F60) == "1F60";
  }

  /** The pair (keyword, emoji) is not determined by the UID alone: a keyword
      may itself contain a dash followed by hex digits. */
  lemma UidNotJointlyInjective()
    ensures GenerateUid("smiley", "\U{1F603}\U{1F603}") == GenerateUid("smiley-1F603", "\U{1F603}")
  {
    SmileyHex();
    assert HexFields("\U{1F603}\U{1F603}") == ["1F603", "1F603"];
    assert HexFields("\U{1F603}") == ["1F603"];
  }
}
