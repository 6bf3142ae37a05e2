/** The `str` operations the validators use, over Unicode scalar values. */
module Text {
  import opened Wrappers
  import Utf8

  /** Unicode `White_Space`: `char::is_whitespace`. */
  predicate IsWhitespace(c: char) {
    var v := c as int;
    || 0x09 <= v <= 0x0D || v == 0x20 || v == 0x85 || v == 0xA0 || v == 0x1680
    || 0x2000 <= v <= 0x200A || v == 0x2028 || v == 0x2029 || v == 0x202F || v == 0x205F
    || v == 0x3000
  }

  /** General category `Cc`: `char::is_control`. */
  predicate IsControl(c: char) {
    var v := c as int;
    v < 0x20 || 0x7F <= v < 0xA0
  }

  /** Unicode 17.0 `Default_Ignorable_Code_Point`. */
  predicate IsDefaultIgnorable(c: char) {
    var v := c as int;
    || v == 0xAD || v == 0x34F || v == 0x61C || 0x115F <= v <= 0x1160 || 0x17B4 <= v <= 0x17B5
    || 0x180B <= v <= 0x180F || 0x200B <= v <= 0x200F || 0x202A <= v <= 0x202E
    || 0x2060 <= v <= 0x206F || v == 0x3164 || 0xFE00 <= v <= 0xFE0F || v == 0xFEFF
    || v == 0xFFA0 || 0xFFF0 <= v <= 0xFFF8 || 0x1BCA0 <= v <= 0x1BCA3
    || 0x1D173 <= v <= 0x1D17A || 0xE0000 <= v <= 0xE0FFF
  }

  predicate IsUnsafeDisplay(c: char) {
    IsControl(c) || c as int == 0x2028 || c as int == 0x2029 || IsDefaultIgnorable(c)
  }

  predicate ContainsUnsafeDisplay(s: string) {
    exists i :: 0 <= i < |s| && IsUnsafeDisplay(s[i])
  }

  function TrimStart(s: string): string {
    if s != "" && IsWhitespace(s[0]) then TrimStart(s[1..]) else s
  }

  function TrimEnd(s: string): string {
    if s != "" && IsWhitespace(s[|s| - 1]) then TrimEnd(s[..|s| - 1]) else s
  }

  function Trim(s: string): string {
    TrimEnd(TrimStart(s))
  }

  lemma {:induction false} TrimStartSuffix(s: string)
    ensures |TrimStart(s)| <= |s| && TrimStart(s) == s[|s| - |TrimStart(s)|..]
    ensures TrimStart(s) != "" ==> !IsWhitespace(TrimStart(s)[0])
    ensures forall i :: 0 <= i < |s| - |TrimStart(s)| ==> IsWhitespace(s[i])
  {
    if s != "" && IsWhitespace(s[0]) {
      TrimStartSuffix(s[1..]);
      forall i | 0 <= i < |s| - |TrimStart(s)| ensures IsWhitespace(s[i]) {
        if i > 0 {
          assert s[i] == s[1..][i - 1];
        }
      }
    }
  }

  lemma {:induction false} TrimEndPrefix(s: string)
    ensures TrimEnd(s) <= s
    ensures TrimEnd(s) != "" ==> !IsWhitespace(TrimEnd(s)[|TrimEnd(s)| - 1])
    ensures forall i :: |TrimEnd(s)| <= i < |s| ==> IsWhitespace(s[i])
  {
    if s != "" && IsWhitespace(s[|s| - 1]) {
      TrimEndPrefix(s[..|s| - 1]);
    }
  }

  /** `value.trim() == value` says exactly that neither end is white space. */
  lemma TrimFixed(s: string)
    ensures Trim(s) == s <==> s == "" || (!IsWhitespace(s[0]) && !IsWhitespace(s[|s| - 1]))
  {
    TrimStartSuffix(s);
    TrimEndPrefix(TrimStart(s));
  }

  function StripPrefix(s: string, prefix: string): Option<string> {
    if prefix <= s then Some(s[|prefix|..]) else None
  }

  predicate EndsWith(s: string, suffix: string) {
    |suffix| <= |s| && s[|s| - |suffix|..] == suffix
  }

  /** `str::split(sep)`: always at least one part, empty parts kept. */
  function Split(s: string, sep: char): (parts: seq<string>)
    ensures |parts| >= 1
  {
    if s == "" then [""]
    else
      var rest := Split(s[1..], sep);
      if s[0] == sep then [""] + rest else [[s[0]] + rest[0]] + rest[1..]
  }

  /** Joining the parts of a split gives back the text, and no part holds the separator. */
  lemma {:induction false} SplitInverse(s: string, sep: char)
    ensures JoinWith(Split(s, sep), sep) == s
    ensures forall i :: 0 <= i < |Split(s, sep)| ==> sep !in Split(s, sep)[i]
  {
    if s != "" {
      SplitInverse(s[1..], sep);
      var rest := Split(s[1..], sep);
      if s[0] == sep {
        assert ([""] + rest)[1..] == rest;
      } else {
        assert ([[s[0]] + rest[0]] + rest[1..])[1..] == rest[1..];
      }
    }
  }

  function JoinWith(parts: seq<string>, sep: char): string {
    if parts == [] then "" else if |parts| == 1 then parts[0] else parts[0] + [sep] + JoinWith(parts[1..], sep)
  }

  /** The longest prefix without white space. */
  function Word(s: string): (w: string)
    ensures w <= s
  {
    if s == "" || IsWhitespace(s[0]) then "" else [s[0]] + Word(s[1..])
  }

  /** `str::split_whitespace`. */
  function Words(s: string): seq<string>
    decreases |s|
  {
    TrimStartSuffix(s);
    var t := TrimStart(s);
    if t == "" then [] else [Word(t)] + Words(t[|Word(t)|..])
  }

  predicate NoWhitespace(s: string) {
    forall i :: 0 <= i < |s| ==> !IsWhitespace(s[i])
  }

  predicate Blank(s: string) {
    forall i :: 0 <= i < |s| ==> IsWhitespace(s[i])
  }

  lemma {:induction false} WordShape(s: string)
    ensures NoWhitespace(Word(s))
    ensures |Word(s)| < |s| ==> IsWhitespace(s[|Word(s)|])
  {
    if s != "" && !IsWhitespace(s[0]) {
      WordShape(s[1..]);
      assert Word(s) == [s[0]] + Word(s[1..]);
    }
  }

  lemma {:induction false} WordOf(w: string, rest: string)
    requires NoWhitespace(w) && (rest == "" || IsWhitespace(rest[0]))
    ensures Word(w + rest) == w
  {
    if w == "" {
      assert w + rest == rest;
    } else {
      assert (w + rest)[1..] == w[1..] + rest;
      WordOf(w[1..], rest);
    }
  }

  /** Two words joined by one space split back into those two words. */
  lemma WordsOfTwo(a: string, b: string)
    requires a != "" && NoWhitespace(a) && b != "" && NoWhitespace(b)
    ensures Words(a + " " + b) == [a, b]
  {
    var s := a + " " + b;
    assert s == a + (" " + b);
    WordOf(a, " " + b);
    assert TrimStart(s) == s;
    assert s[|a|..] == " " + b;
    assert (" " + b)[1..] == b;
    assert TrimStart(" " + b) == b by {
      assert TrimStart(" " + b) == TrimStart(b);
    }
    WordOf(b, "");
    assert b + "" == b;
    assert Words(b[|b|..]) == [];
    assert Words(" " + b) == [b];
  }

  /** Where the first word of a text starts and ends. */
  lemma FirstWord(s: string) returns (lead: string, rest: string)
    requires Words(s) != []
    ensures Words(s)[0] != "" && NoWhitespace(Words(s)[0])
    ensures s == lead + Words(s)[0] + rest
    ensures Blank(lead)
    ensures rest == "" || IsWhitespace(rest[0])
    ensures Words(rest) == Words(s)[1..]
  {
    TrimStartSuffix(s);
    var t := TrimStart(s);
    WordShape(t);
    lead, rest := s[..|s| - |t|], t[|Word(t)|..];
    assert s == lead + t;
    assert t == Word(t) + rest;
  }

  lemma {:induction false} TrimBlank(lead: string, s: string)
    requires Blank(lead) && s != "" && !IsWhitespace(s[0])
    ensures TrimStart(lead + s) == s
  {
    if lead == "" {
      assert lead + s == s;
    } else {
      assert (lead + s)[1..] == lead[1..] + s;
      TrimBlank(lead[1..], s);
    }
  }

  /** A word behind white space, followed by white space or nothing, is the first word. */
  lemma WordsOf(lead: string, w: string, rest: string)
    requires Blank(lead) && w != "" && NoWhitespace(w) && (rest == "" || IsWhitespace(rest[0]))
    ensures Words(lead + w + rest) == [w] + Words(rest)
  {
    assert lead + w + rest == lead + (w + rest);
    TrimBlank(lead, w + rest);
    WordOf(w, rest);
    assert (w + rest)[|w|..] == rest;
  }

  /** The first two words of a text joined by one space take no more bytes than the text. */
  lemma TwoWordsFit(s: string)
    requires |Words(s)| >= 2
    ensures var w := Words(s); w[0] != "" && NoWhitespace(w[0]) && w[1] != "" && NoWhitespace(w[1])
    ensures var w := Words(s); |Utf8.Encode(w[0] + " " + w[1])| <= |Utf8.Encode(s)|
  {
    hide Words, Utf8.Encode, IsWhitespace;
    var lead, u := FirstWord(s);
    var gap, rest := FirstWord(u);
    var a, b := Words(s)[0], Words(s)[1];
    assert b == Words(u)[0];
    assert |gap| >= 1 by {
      assert u[|gap|] == b[0];
    }
    Utf8.ConcatLength(lead + a, u);
    Utf8.ConcatLength(lead, a);
    Utf8.ConcatLength(gap + b, rest);
    Utf8.ConcatLength(gap, b);
    Utf8.ConcatLength(a + " ", b);
    Utf8.ConcatLength(a, " ");
    Utf8.AsciiLength(" ");
  }
}
