/** The few Python `str` operations the bot relies on: `str.isspace`, `str.strip()`,
    `str.upper()`, `str.lower()`, `int(text)` and `str(n)`, written out over
    `seq<char>` (Dafny's `string`). */
module PyText {
  import opened Wrappers

  /** Python's `str.isspace` on one code point: the ASCII controls TAB..CR, the
      separators U+001C..U+001F, SPACE, NEL, NBSP and the Unicode space
      separators. */
  predicate IsSpace(c: char) {
    || ('\t' <= c <= '\r')
    || ('\U{001C}' <= c <= '\U{001F}')
    || c == ' ' || c == '\U{0085}' || c == '\U{00A0}' || c == '\U{1680}'
    || ('\U{2000}' <= c <= '\U{200A}')
    || c == '\U{2028}' || c == '\U{2029}' || c == '\U{202F}' || c == '\U{205F}'
    || c == '\U{3000}'
  }

  /** The white space `int(text)` ignores around a number: ASCII " \t\n\v\f\r"
      and every non-ASCII `str.isspace` character. The separators U+001C..U+001F,
      which `str.strip()` removes, are not among them, so `int()` rejects a text
      that carries one. */
  predicate IsIntSpace(c: char) {
    IsSpace(c) && !('\U{001C}' <= c <= '\U{001F}')
  }

  /** Which characters a strip removes: those of `str.strip()` or those of `int()`. */
  datatype Blanks = StrBlanks | IntBlanks

  predicate IsBlank(k: Blanks, c: char) {
    match k
    case StrBlanks => IsSpace(c)
    case IntBlanks => IsIntSpace(c)
  }

  predicate NoSpace(s: string) {
    forall i :: 0 <= i < |s| ==> !IsSpace(s[i])
  }

  /** Drops the longest all-blank prefix (`s.lstrip()` for StrBlanks). */
  function StripLeft(k: Blanks, s: string): (r: string)
    ensures |r| <= |s| && r == s[|s| - |r|..]
    ensures r == [] || !IsBlank(k, r[0])
    ensures forall i :: 0 <= i < |s| - |r| ==> IsBlank(k, s[i])
  {
    if |s| > 0 && IsBlank(k, s[0]) then StripLeft(k, s[1..]) else s
  }

  /** Drops the longest all-blank suffix (`s.rstrip()` for StrBlanks). */
  function StripRight(k: Blanks, s: string): (r: string)
    ensures |r| <= |s| && r == s[..|r|]
    ensures r == [] || !IsBlank(k, r[|r| - 1])
    ensures forall i :: |r| <= i < |s| ==> IsBlank(k, s[i])
  {
    if |s| > 0 && IsBlank(k, s[|s| - 1]) then StripRight(k, s[..|s| - 1]) else s
  }

  /** Drops blanks at both ends: `s.strip()` with no argument for StrBlanks, the
      trimming `int(text)` does for IntBlanks. What is left neither starts nor
      ends with a blank, and every character of it comes from s; `StripIsSlice`
      says which slice of s it is and that everything around it is blank. */
  function Strip(k: Blanks, s: string): (r: string)
    ensures |r| <= |s|
    ensures r == [] || (!IsBlank(k, r[0]) && !IsBlank(k, r[|r| - 1]))
    ensures forall j :: 0 <= j < |r| ==> r[j] in s
  {
    var l := StripLeft(k, s);
    var r := StripRight(k, l);
    SliceOfSuffix(s, l, r);
    SliceMembers(s, l, r);
    r
  }

  lemma SliceMembers(s: string, l: string, r: string)
    requires |l| <= |s| && |s| - |l| + |r| <= |s|
    requires r == s[|s| - |l|..|s| - |l| + |r|]
    ensures forall j :: 0 <= j < |r| ==> r[j] in s
  {
    var a := |s| - |l|;
    forall j | 0 <= j < |r| ensures r[j] in s {
      assert r[j] == s[a + j];
    }
  }

  /** What `Strip` keeps and drops: with l the text after the leading blanks
      and r = StripRight(k, l), which is `Strip(k, s)`, r is the slice of s
      that starts where l does, and s is blank before and after it. */
  lemma StripIsSlice(k: Blanks, s: string, l: string, r: string)
    requires l == StripLeft(k, s) && r == StripRight(k, l)
    ensures |s| - |l| + |r| <= |s| && r == s[|s| - |l|..|s| - |l| + |r|]
    ensures forall j :: 0 <= j < |s| - |l| ==> IsBlank(k, s[j])
    ensures forall j :: |s| - |l| + |r| <= j < |s| ==> IsBlank(k, s[j])
  {
    SliceOfSuffix(s, l, r);
    BlankAfterPrefix(k, s, l, r);
  }

  lemma StripUnfold(k: Blanks, s: string)
    ensures Strip(k, s) == StripRight(k, StripLeft(k, s))
  {
  }

  /** l is a suffix of s and blank after its prefix r: then s is blank after
      the copy of r in it. */
  lemma BlankAfterPrefix(k: Blanks, s: string, l: string, r: string)
    requires |l| <= |s| && l == s[|s| - |l|..] && |r| <= |l|
    requires forall i :: |r| <= i < |l| ==> IsBlank(k, l[i])
    ensures forall j :: |s| - |l| + |r| <= j < |s| ==> IsBlank(k, s[j])
  {
    var a := |s| - |l|;
    forall j | a + |r| <= j < |s| ensures IsBlank(k, s[j]) {
      assert s[j] == l[j - a];
    }
  }

  /** r is a prefix of the suffix l of s: then r is a slice of s. */
  lemma SliceOfSuffix(s: string, l: string, r: string)
    requires |l| <= |s| && l == s[|s| - |l|..]
    requires |r| <= |l| && r == l[..|r|]
    ensures |s| - |l| + |r| <= |s| && r == s[|s| - |l|..|s| - |l| + |r|]
  {
  }

  /** A string with no space character is its own strip. */
  lemma StripNoSpace(k: Blanks, s: string)
    requires NoSpace(s)
    ensures Strip(k, s) == s
  {
    StripLeftNoSpace(k, s);
    StripRightNoSpace(k, s);
  }

  lemma StripLeftNoSpace(k: Blanks, s: string)
    requires NoSpace(s)
    ensures StripLeft(k, s) == s
  {
    if |s| > 0 {
      assert !IsSpace(s[0]);
    }
  }

  lemma StripRightNoSpace(k: Blanks, s: string)
    requires NoSpace(s)
    ensures StripRight(k, s) == s
  {
    if |s| > 0 {
      assert !IsSpace(s[|s| - 1]);
    }
  }

  /** Stripping a text padded with blanks on both sides gives the text back, when
      the text itself neither starts nor ends with a blank. */
  lemma {:induction false} StripPadded(k: Blanks, pre: string, t: string, post: string)
    requires forall j :: 0 <= j < |pre| ==> IsBlank(k, pre[j])
    requires forall j :: 0 <= j < |post| ==> IsBlank(k, post[j])
    requires |t| > 0 && !IsBlank(k, t[0]) && !IsBlank(k, t[|t| - 1])
    ensures Strip(k, pre + t + post) == t
  {
    StripLeftBlankPrefix(k, pre, t + post);
    assert pre + t + post == pre + (t + post);
    assert StripLeft(k, t + post) == t + post by {
      assert (t + post)[0] == t[0];
    }
    StripRightBlankSuffix(k, t, post);
    assert StripRight(k, t) == t;
    StripUnfold(k, pre + t + post);
  }

  /** A blank prefix is what `StripLeft` removes first. */
  lemma {:induction false} StripLeftBlankPrefix(k: Blanks, pre: string, u: string)
    requires forall j :: 0 <= j < |pre| ==> IsBlank(k, pre[j])
    ensures StripLeft(k, pre + u) == StripLeft(k, u)
  {
    if |pre| > 0 {
      assert (pre + u)[0] == pre[0];
      assert (pre + u)[1..] == pre[1..] + u;
      StripLeftBlankPrefix(k, pre[1..], u);
    } else {
      assert pre + u == u;
    }
  }

  /** A blank suffix is what `StripRight` removes first. */
  lemma {:induction false} StripRightBlankSuffix(k: Blanks, u: string, post: string)
    requires forall j :: 0 <= j < |post| ==> IsBlank(k, post[j])
    ensures StripRight(k, u + post) == StripRight(k, u)
  {
    if |post| > 0 {
      assert (u + post)[|u + post| - 1] == post[|post| - 1];
      assert (u + post)[..|u + post| - 1] == u + post[..|post| - 1];
      StripRightBlankSuffix(k, u, post[..|post| - 1]);
    } else {
      assert u + post == u;
    }
  }

  /** The two strips differ: a leading U+001C is white space to `str.strip()`
      but not to `int()`, which therefore rejects "\x1c42". */
  lemma SeparatorIsNotIntSpace(text: string)
    requires text == "\U{001C}42"
    ensures Strip(StrBlanks, text) == "42"
    ensures ParseInt(text) == None
  {
    assert StripLeft(StrBlanks, text) == text[1..];
    assert StripLeft(IntBlanks, text) == text;
  }

  /** Python's `str.upper()` on one code point, for Basic Latin, Latin-1 and the
      basic Cyrillic block; it may yield two characters (`ß` becomes `SS`). */
  function UpperChar(c: char): (r: string)
    ensures |r| >= 1 && forall i :: 0 <= i < |r| ==> !('a' <= r[i] <= 'z')
  {
    if 'a' <= c <= 'z' then [(c as int - 32) as char]
    else if c == '\U{00B5}' then ['\U{039C}']
    else if c == '\U{00DF}' then "SS"
    else if '\U{00E0}' <= c <= '\U{00FE}' && c != '\U{00F7}' then [(c as int - 32) as char]
    else if c == '\U{00FF}' then ['\U{0178}']
    else if '\U{0430}' <= c <= '\U{044F}' then [(c as int - 32) as char]
    else if '\U{0450}' <= c <= '\U{045F}' then [(c as int - 80) as char]
    else [c]
  }

  /** Python's `str.lower()` on one code point, for the same blocks as UpperChar;
      `İ` becomes the two characters `i` and a combining dot. */
  function LowerChar(c: char): (r: string)
    ensures |r| >= 1 && forall i :: 0 <= i < |r| ==> !('A' <= r[i] <= 'Z')
  {
    if 'A' <= c <= 'Z' then [(c as int + 32) as char]
    else if '\U{00C0}' <= c <= '\U{00DE}' && c != '\U{00D7}' then [(c as int + 32) as char]
    else if c == '\U{0130}' then ['i', '\U{0307}']
    else if '\U{0410}' <= c <= '\U{042F}' then [(c as int + 32) as char]
    else if '\U{0400}' <= c <= '\U{040F}' then [(c as int + 80) as char]
    else [c]
  }

  /** `s.upper()`: no ASCII lower-case letter survives, and nothing gets shorter. */
  function Upper(s: string): (r: string)
    ensures |r| >= |s|
    ensures forall i :: 0 <= i < |r| ==> !('a' <= r[i] <= 'z')
  {
    if |s| == 0 then [] else UpperChar(s[0]) + Upper(s[1..])
  }

  /** `s.lower()`: no ASCII capital survives, and nothing gets shorter. */
  function Lower(s: string): (r: string)
    ensures |r| >= |s|
    ensures forall i :: 0 <= i < |r| ==> !('A' <= r[i] <= 'Z')
  {
    if |s| == 0 then [] else LowerChar(s[0]) + Lower(s[1..])
  }

  predicate IsCapital(c: char) {
    'A' <= c <= 'Z'
  }

  /** ASCII and the basic Cyrillic letters А–я (U+0410..U+044F), where upper
      and lower case lie 32 code points apart and each letter stays one
      character. */
  predicate IsBasicChar(c: char) {
    c < '\U{0080}' || ('\U{0410}' <= c <= '\U{044F}')
  }

  /** On ASCII and basic Cyrillic text, `str.upper()` keeps the length and
      moves exactly the small letters a–z and а–я to their capitals. */
  lemma {:induction false} UpperBasic(s: string)
    requires forall i :: 0 <= i < |s| ==> IsBasicChar(s[i])
    ensures |Upper(s)| == |s|
    ensures forall i :: 0 <= i < |s| ==>
              Upper(s)[i] == if 'a' <= s[i] <= 'z' || '\U{0430}' <= s[i] <= '\U{044F}'
                             then (s[i] as int - 32) as char else s[i]
  {
    if |s| > 0 {
      UpperBasic(s[1..]);
      UpperCharBasic(s[0]);
      var r := Upper(s);
      assert r == UpperChar(s[0]) + Upper(s[1..]);
      forall i | 0 <= i < |s|
        ensures r[i] == if 'a' <= s[i] <= 'z' || '\U{0430}' <= s[i] <= '\U{044F}'
                        then (s[i] as int - 32) as char else s[i]
      {
        if i > 0 {
          assert r[i] == Upper(s[1..])[i - 1] && s[i] == s[1..][i - 1];
        }
      }
    }
  }

  lemma UpperCharBasic(c: char)
    requires IsBasicChar(c)
    ensures UpperChar(c) == [if 'a' <= c <= 'z' || '\U{0430}' <= c <= '\U{044F}'
                             then (c as int - 32) as char else c]
  {
  }

  lemma LowerCharBasic(c: char)
    requires IsBasicChar(c)
    ensures LowerChar(c) == [if 'A' <= c <= 'Z' || '\U{0410}' <= c <= '\U{042F}'
                             then (c as int + 32) as char else c]
  {
  }

  /** On ASCII and basic Cyrillic text, `str.lower()` keeps the length and
      moves exactly the capitals A–Z and А–Я to their small letters. */
  lemma {:induction false} LowerBasic(s: string)
    requires forall i :: 0 <= i < |s| ==> IsBasicChar(s[i])
    ensures |Lower(s)| == |s|
    ensures forall i :: 0 <= i < |s| ==>
              Lower(s)[i] == if 'A' <= s[i] <= 'Z' || '\U{0410}' <= s[i] <= '\U{042F}'
                             then (s[i] as int + 32) as char else s[i]
  {
    if |s| > 0 {
      LowerBasic(s[1..]);
      LowerCharBasic(s[0]);
      var r := Lower(s);
      assert r == LowerChar(s[0]) + Lower(s[1..]);
      forall i | 0 <= i < |s|
        ensures r[i] == if 'A' <= s[i] <= 'Z' || '\U{0410}' <= s[i] <= '\U{042F}'
                        then (s[i] as int + 32) as char else s[i]
      {
        if i > 0 {
          assert r[i] == Lower(s[1..])[i - 1] && s[i] == s[1..][i - 1];
        }
      }
    }
  }

  /** Upper-casing never touches a string of Latin capitals. */
  lemma {:induction false} UpperOfCapitals(s: string)
    requires forall i :: 0 <= i < |s| ==> IsCapital(s[i])
    ensures Upper(s) == s
  {
    if |s| > 0 {
      UpperOfCapitals(s[1..]);
      assert s == [s[0]] + s[1..];
    }
  }

  /** A string whose every character upper-cases to itself is its own upper case. */
  lemma {:induction false} UpperFixed(s: string)
    requires forall i :: 0 <= i < |s| ==> UpperChar(s[i]) == [s[i]]
    ensures Upper(s) == s
  {
    if |s| > 0 {
      UpperFixed(s[1..]);
      assert s == [s[0]] + s[1..];
    }
  }

  /** A string whose every character lower-cases to itself is its own lower case. */
  lemma {:induction false} LowerFixed(s: string)
    requires forall i :: 0 <= i < |s| ==> LowerChar(s[i]) == [s[i]]
    ensures Lower(s) == s
  {
    if |s| > 0 {
      LowerFixed(s[1..]);
      assert s == [s[0]] + s[1..];
    }
  }

  // ----- int(text) -----

  predicate IsDigit(c: char) {
    '0' <= c <= '9'
  }

  function DigitValue(c: char): nat
    requires IsDigit(c)
  {
    c as int - '0' as int
  }

  /** The digit part Python's `int()` accepts in base 10: decimal digits, where a
      single `_` may separate two digits. Leading zeros are allowed. */
  predicate IsDigitRun(s: string) {
    && |s| > 0
    && IsDigit(s[0])
    && IsDigit(s[|s| - 1])
    && (forall i :: 0 <= i < |s| ==> IsDigit(s[i]) || s[i] == '_')
    && (forall i :: 0 <= i < |s| - 1 ==> s[i] == '_' ==> s[i + 1] != '_')
  }

  function DropUnderscores(s: string): (r: string)
    ensures (forall i :: 0 <= i < |s| ==> IsDigit(s[i]) || s[i] == '_') ==>
              forall i :: 0 <= i < |r| ==> IsDigit(r[i])
  {
    if |s| == 0 then []
    else if s[|s| - 1] == '_' then DropUnderscores(s[..|s| - 1])
    else DropUnderscores(s[..|s| - 1]) + [s[|s| - 1]]
  }

  /** The value of a string of decimal digits, most significant first. */
  function DigitsValue(s: string): nat
    requires forall i :: 0 <= i < |s| ==> IsDigit(s[i])
  {
    if |s| == 0 then 0 else 10 * DigitsValue(s[..|s| - 1]) + DigitValue(s[|s| - 1])
  }

  function DigitRunValue(s: string): nat
    requires IsDigitRun(s)
  {
    DigitsValue(DropUnderscores(s))
  }

  predicate IsSign(c: char) {
    c == '+' || c == '-'
  }

  /** Python's `int(text)` in base 10: the white space of `IsIntSpace` around it is
      ignored, then one optional sign and a digit run; anything else raises
      ValueError (None). A number needs a digit of the text, and a negative one
      a minus sign; `ParseIntAlphabet` bounds the characters of an accepted text. */
  function ParseInt(text: string): (r: Option<int>)
    ensures r.Some? ==> exists i :: 0 <= i < |text| && IsDigit(text[i])
    ensures r.Some? && r.value < 0 ==> '-' in text
  {
    var t := Strip(IntBlanks, text);
    if |t| > 0 && IsSign(t[0]) then
      if IsDigitRun(t[1..]) then
        var v: int := DigitRunValue(t[1..]);
        assert t[1] in text && IsDigit(t[1]);
        Some(if t[0] == '-' then -v else v)
      else None
    else if IsDigitRun(t) then
      assert t[0] in text && IsDigit(t[0]);
      Some(DigitRunValue(t))
    else None
  }

  /** What `int()` rejects: an accepted text holds only digits, underscores,
      `int()`'s white space and a sign, and a sign is preceded by nothing but
      white space (so there is at most one, and it comes before the digits). */
  lemma ParseIntAlphabet(text: string)
    ensures ParseInt(text).Some? ==> forall i :: 0 <= i < |text| ==>
              || IsDigit(text[i]) || text[i] == '_' || IsIntSpace(text[i])
              || (IsSign(text[i]) && forall j :: 0 <= j < i ==> IsIntSpace(text[j]))
  {
    if ParseInt(text).Some? {
      AcceptedShape(text);
      StripUnfold(IntBlanks, text);
      var l := StripLeft(IntBlanks, text);
      StripAlphabet(text, l, StripRight(IntBlanks, l));
    }
  }

  /** A text whose `int()` strip t is a digit run, possibly signed, holds only
      digits, underscores, `int()`'s white space and a leading sign. */
  lemma StripAlphabet(text: string, l: string, t: string)
    requires l == StripLeft(IntBlanks, text) && t == StripRight(IntBlanks, l)
    requires IsDigitRun(t) || (|t| > 0 && IsSign(t[0]) && IsDigitRun(t[1..]))
    ensures forall i :: 0 <= i < |text| ==>
              || IsDigit(text[i]) || text[i] == '_' || IsIntSpace(text[i])
              || (IsSign(text[i]) && forall j :: 0 <= j < i ==> IsIntSpace(text[j]))
  {
    StripIsSlice(IntBlanks, text, l, t);
    IntAlphabet(text, l, t);
  }

  /** The strip of an accepted text is a digit run, possibly signed. */
  lemma AcceptedShape(text: string)
    requires ParseInt(text).Some?
    ensures var t := Strip(IntBlanks, text);
            IsDigitRun(t) || (|t| > 0 && IsSign(t[0]) && IsDigitRun(t[1..]))
  {
  }

  /** The characters of a text whose strip t, found after the suffix l of it
      starts, is a digit run, possibly signed. */
  lemma IntAlphabet(text: string, l: string, t: string)
    requires |l| <= |text| && |text| - |l| + |t| <= |text|
    requires t == text[|text| - |l|..|text| - |l| + |t|]
    requires forall j :: 0 <= j < |text| - |l| ==> IsBlank(IntBlanks, text[j])
    requires forall j :: |text| - |l| + |t| <= j < |text| ==> IsBlank(IntBlanks, text[j])
    requires IsDigitRun(t) || (|t| > 0 && IsSign(t[0]) && IsDigitRun(t[1..]))
    ensures forall i :: 0 <= i < |text| ==>
              || IsDigit(text[i]) || text[i] == '_' || IsIntSpace(text[i])
              || (IsSign(text[i]) && forall j :: 0 <= j < i ==> IsIntSpace(text[j]))
  {
    var a := |text| - |l|;
    forall i | 0 <= i < |text|
      ensures || IsDigit(text[i]) || text[i] == '_' || IsIntSpace(text[i])
              || (IsSign(text[i]) && forall j :: 0 <= j < i ==> IsIntSpace(text[j]))
    {
      if a <= i < a + |t| {
        assert text[i] == t[i - a];
        if i > a && !IsDigitRun(t) {
          assert t[i - a] == t[1..][i - a - 1];
        }
      }
    }
  }

  // ----- str(n) -----

  function DigitChar(d: nat): (c: char)
    requires d < 10
    ensures IsDigit(c) && DigitValue(c) == d
  {
    ('0' as int + d) as char
  }

  /** `str(n)` for n >= 0: the shortest decimal spelling. */
  function NatToString(n: nat): (r: string)
    ensures |r| > 0
    ensures forall i :: 0 <= i < |r| ==> IsDigit(r[i])
    ensures r[0] == '0' ==> n == 0
  {
    if n < 10 then [DigitChar(n)] else NatToString(n / 10) + [DigitChar(n % 10)]
  }

  /** `str(n)` for any integer. */
  function IntToString(n: int): string {
    if n < 0 then "-" + NatToString(-n) else NatToString(n)
  }

  lemma {:induction false} DropUnderscoresOfDigits(s: string)
    requires forall i :: 0 <= i < |s| ==> IsDigit(s[i])
    ensures DropUnderscores(s) == s
  {
    if |s| > 0 {
      DropUnderscoresOfDigits(s[..|s| - 1]);
      assert s == s[..|s| - 1] + [s[|s| - 1]];
    }
  }

  lemma {:induction false} DigitsValueOfNatToString(n: nat)
    ensures DigitsValue(NatToString(n)) == n
  {
    var r := NatToString(n);
    if n >= 10 {
      DigitsValueOfNatToString(n / 10);
      assert r[..|r| - 1] == NatToString(n / 10);
    }
  }

  /** The decimal spelling of a natural number is a digit run worth that number. */
  lemma NatToStringIsDigitRun(m: nat)
    ensures IsDigitRun(NatToString(m))
    ensures DigitRunValue(NatToString(m)) == m
  {
    DropUnderscoresOfDigits(NatToString(m));
    DigitsValueOfNatToString(m);
  }

  lemma IntToStringNoSpace(n: int)
    ensures NoSpace(IntToString(n))
  {
    var s := IntToString(n);
    var digits := NatToString(if n < 0 then -n else n);
    forall i | 0 <= i < |s| ensures !IsSpace(s[i]) {
      if n < 0 && i > 0 {
        assert s[i] == digits[i - 1];
      }
    }
  }

  /** `int(str(n)) == n`: the age the bot stores can always be read back. */
  lemma ParseIntRoundTrip(n: int)
    ensures ParseInt(IntToString(n)) == Some(n)
  {
    IntToStringNoSpace(n);
    if n < 0 {
      NegativeRoundTrip(n);
    } else {
      NatToStringIsDigitRun(n);
      ParseIntOfRun(IntToString(n));
    }
  }

  lemma NegativeRoundTrip(n: int)
    requires n < 0 && NoSpace(IntToString(n))
    ensures ParseInt(IntToString(n)) == Some(n)
  {
    var s, digits := IntToString(n), NatToString(-n);
    assert |s| > 0 && s[0] == '-' && s[1..] == digits by {
      assert s == "-" + digits;
      DropFirst('-', digits);
    }
    NatToStringIsDigitRun(-n);
    ParseIntOfMinusRun(s, digits, n);
  }

  lemma ParseIntOfMinusRun(s: string, digits: string, n: int)
    requires NoSpace(s) && |s| > 0 && s[0] == '-' && s[1..] == digits
    requires IsDigitRun(digits) && n == -(DigitRunValue(digits) as int)
    ensures ParseInt(s) == Some(n)
  {
    StripNoSpace(IntBlanks, s);
    var u := Strip(IntBlanks, s);
    assert u == s && |u| > 0 && IsSign(u[0]) && u[0] == '-';
    assert u[1..] == digits;
  }

  lemma DropFirst(c: char, s: string)
    ensures ([c] + s)[0] == c && ([c] + s)[1..] == s
  {
  }

  /** A digit run with nothing around it parses as its value. */
  lemma ParseIntOfRun(t: string)
    requires NoSpace(t) && IsDigitRun(t)
    ensures ParseInt(t) == Some(DigitRunValue(t))
  {
    StripNoSpace(IntBlanks, t);
  }

  /** A minus sign and a digit run with nothing around them parse as the
      negated value. */
  lemma ParseIntOfSignedRun(t: string)
    requires NoSpace(t) && |t| > 0 && t[0] == '-' && IsDigitRun(t[1..])
    ensures ParseInt(t) == Some(-(DigitRunValue(t[1..]) as int))
  {
    StripNoSpace(IntBlanks, t);
    var u := Strip(IntBlanks, t);
    assert u == t && |u| > 0 && IsSign(u[0]) && u[0] == '-';
    assert IsDigitRun(u[1..]);
  }
}
