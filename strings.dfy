/** The string operations of Python that the compiler relies on:
    `str.isspace`, `str.lower` (ASCII letters), `str.strip`, `str.split()`,
    `sep.join(parts)`, splitting on one separator character, and `str(int)`. */
module Strings {

  /** Python's `str.isspace` (and the regex class `\s`) for one character. */
  predicate IsSpace(c: char)
  {
    c == ' ' || c == '\t' || c == '\n' || c == '\r' || c == '\U{0b}' || c == '\U{0c}'
    || ('\U{1c}' <= c <= '\U{1f}') || c == '\U{85}' || c == '\U{a0}' || c == '\U{1680}'
    || ('\U{2000}' <= c <= '\U{200a}') || c == '\U{2028}' || c == '\U{2029}'
    || c == '\U{202f}' || c == '\U{205f}' || c == '\U{3000}'
  }

  predicate NoSpace(s: string)
  {
    forall i :: 0 <= i < |s| ==> !IsSpace(s[i])
  }

  predicate IsUpper(c: char)
  {
    'A' <= c <= 'Z'
  }

  predicate IsLowerLetter(c: char)
  {
    'a' <= c <= 'z'
  }

  predicate IsDigit(c: char)
  {
    '0' <= c <= '9'
  }

  function LowerChar(c: char): char
  {
    if IsUpper(c) then (c as int + 32) as char else c
  }

  /** `s.lower()` on ASCII letters. */
  function Lower(s: string): (r: string)
    ensures |r| == |s|
    ensures forall i :: 0 <= i < |s| ==> r[i] == LowerChar(s[i])
  {
    if s == [] then [] else [LowerChar(s[0])] + Lower(s[1..])
  }

  /** Characters that `Lower` leaves as they are. */
  predicate IsLowered(s: string)
  {
    forall i :: 0 <= i < |s| ==> !IsUpper(s[i])
  }

  /** `s.replace(old, new)` for single characters. */
  function ReplaceChar(s: string, oldChar: char, newChar: char): (r: string)
    ensures |r| == |s|
    ensures forall i :: 0 <= i < |s| ==> r[i] == (if s[i] == oldChar then newChar else s[i])
  {
    if s == [] then [] else [if s[0] == oldChar then newChar else s[0]] + ReplaceChar(s[1..], oldChar, newChar)
  }

  function StripLeft(s: string): (r: string)
    ensures |r| <= |s| && r == s[|s| - |r|..]
    ensures r == [] || !IsSpace(r[0])
  {
    if s != [] && IsSpace(s[0]) then StripLeft(s[1..]) else s
  }

  function StripRight(s: string): (r: string)
    ensures |r| <= |s| && r == s[..|r|]
    ensures r == [] || !IsSpace(r[|r| - 1])
  {
    if s != [] && IsSpace(s[|s| - 1]) then StripRight(s[..|s| - 1]) else s
  }

  /** `s.strip()`: drops leading and trailing whitespace. */
  function Strip(s: string): string
  {
    StripRight(StripLeft(s))
  }

  /** Length of the run of non-space characters that starts `s`. */
  function WordLen(s: string): (n: nat)
    ensures n <= |s|
    ensures forall i :: 0 <= i < n ==> !IsSpace(s[i])
    ensures n < |s| ==> IsSpace(s[n])
  {
    if s == [] || IsSpace(s[0]) then 0 else 1 + WordLen(s[1..])
  }

  /** `s.split()`: the maximal runs of non-space characters, in order. */
  function Split(s: string): seq<string>
    decreases |s|
  {
    if s == [] then []
    else if IsSpace(s[0]) then Split(s[1..])
    else
      var n := WordLen(s);
      [s[..n]] + Split(s[n..])
  }

  /** `sep.join(parts)`. */
  function Join(parts: seq<string>, sep: string): string
  {
    if |parts| == 0 then ""
    else if |parts| == 1 then parts[0]
    else parts[0] + sep + Join(parts[1..], sep)
  }

  /** Words fit for `Join(_, " ")` to be split back into: non-empty, no whitespace. */
  predicate AreWords(ws: seq<string>)
  {
    forall k :: 0 <= k < |ws| ==> ws[k] != [] && NoSpace(ws[k])
  }

  /** `s.split(sep)` for one separator character: the text between separators. */
  function Fields(s: string, sep: char): (r: seq<string>)
    ensures |r| >= 1
  {
    if s == [] then [""]
    else
      var rest := Fields(s[1..], sep);
      if s[0] == sep then [""] + rest else [[s[0]] + rest[0]] + rest[1..]
  }

  function DigitChar(d: nat): char
    requires d < 10
  {
    ('0' as int + d) as char
  }

  /** `str(n)` for a natural number. */
  function NatToString(n: nat): string
  {
    if n < 10 then [DigitChar(n)] else NatToString(n / 10) + [DigitChar(n % 10)]
  }

  /** `str(n)` for an integer: a minus sign, then the digits of `|n|`. */
  function IntToString(n: int): string
  {
    if n < 0 then "-" + NatToString(-n) else NatToString(n)
  }

  /** The number a string of decimal digits denotes. */
  function DigitsValue(s: string): nat
  {
    if s == [] then 0 else 10 * DigitsValue(s[..|s| - 1]) + (if IsDigit(s[|s| - 1]) then s[|s| - 1] as int - '0' as int else 0)
  }

  // ---------------------------------------------------------------------
  // Lemmas

  /** Every word `Split` returns is non-empty and free of whitespace. */
  lemma {:induction false} SplitAreWords(s: string)
    ensures AreWords(Split(s))
    decreases |s|
  {
    if s == [] {
    } else if IsSpace(s[0]) {
      SplitAreWords(s[1..]);
    } else {
      var n := WordLen(s);
      SplitAreWords(s[n..]);
    }
  }

  /** Every character of a word of `Split(s)` is a character of `s`. */
  lemma {:induction false} SplitCharsFrom(s: string, k: nat, i: nat)
    requires k < |Split(s)| && i < |Split(s)[k]|
    ensures Split(s)[k][i] in s
    decreases |s|
  {
    if IsSpace(s[0]) {
      SplitCharsFrom(s[1..], k, i);
    } else {
      var n := WordLen(s);
      if k > 0 {
        SplitCharsFrom(s[n..], k - 1, i);
      }
    }
  }

  lemma {:induction false} SplitSpacesFirst(t: string, s: string)
    requires forall i :: 0 <= i < |t| ==> IsSpace(t[i])
    ensures Split(t + s) == Split(s)
    decreases |t|
  {
    if t != [] {
      assert (t + s)[0] == t[0];
      assert (t + s)[1..] == t[1..] + s;
      SplitSpacesFirst(t[1..], s);
    } else {
      assert t + s == s;
    }
  }

  lemma {:induction false} WordLenOfWord(w: string, t: string)
    requires NoSpace(w)
    requires t == [] || IsSpace(t[0])
    ensures WordLen(w + t) == |w|
    decreases |w|
  {
    if w != [] {
      assert (w + t)[1..] == w[1..] + t;
      WordLenOfWord(w[1..], t);
    }
  }

  /** A word followed by whitespace or nothing splits off as one word. */
  lemma SplitWordThen(w: string, t: string)
    requires w != [] && NoSpace(w)
    requires t == [] || IsSpace(t[0])
    ensures Split(w + t) == [w] + Split(t)
  {
    WordLenOfWord(w, t);
    assert (w + t)[..|w|] == w;
    assert (w + t)[|w|..] == t;
  }

  /** `split()` undoes `" ".join(ws)` for words without whitespace. */
  lemma {:induction false} SplitJoin(ws: seq<string>)
    requires AreWords(ws)
    ensures Split(Join(ws, " ")) == ws
  {
    if |ws| == 0 {
    } else if |ws| == 1 {
      SplitWordThen(ws[0], "");
      assert ws[0] + "" == ws[0];
    } else {
      var rest := Join(ws[1..], " ");
      SplitJoin(ws[1..]);
      assert Join(ws, " ") == ws[0] + (" " + rest);
      SplitWordThen(ws[0], " " + rest);
      SplitSpacesFirst(" ", rest);
    }
  }

  /** `Join(ws, " ")` is non-empty exactly when there is a word. */
  lemma {:induction false} JoinWordsNonEmpty(ws: seq<string>)
    requires AreWords(ws)
    ensures (Join(ws, " ") == "") <==> (|ws| == 0)
    ensures |ws| > 0 ==> Join(ws, " ")[0] == ws[0][0]
  {
    if |ws| > 1 {
      assert Join(ws, " ") == ws[0] + " " + Join(ws[1..], " ");
    }
  }

  /** Every character of `Join(ws, sep)` is a word's character or a separator's. */
  lemma {:induction false} JoinChars(ws: seq<string>, sep: string, i: nat)
    requires i < |Join(ws, sep)|
    ensures Join(ws, sep)[i] in sep || exists k :: 0 <= k < |ws| && Join(ws, sep)[i] in ws[k]
  {
    if |ws| == 1 {
      assert Join(ws, sep)[i] in ws[0];
    } else if |ws| > 1 {
      var j := Join(ws, sep);
      var rest := Join(ws[1..], sep);
      assert j == ws[0] + sep + rest;
      if i < |ws[0]| {
        assert j[i] in ws[0];
      } else if i < |ws[0]| + |sep| {
        assert j[i] == sep[i - |ws[0]|];
      } else {
        assert j[i] == rest[i - |ws[0]| - |sep|];
        JoinChars(ws[1..], sep, i - |ws[0]| - |sep|);
        var k :| Join(ws, sep)[i] in sep || (0 <= k < |ws[1..]| && Join(ws, sep)[i] in ws[1..][k]);
        if Join(ws, sep)[i] !in sep {
          assert Join(ws, sep)[i] in ws[k + 1];
        }
      }
    }
  }

  /** The last character of `Join(ws, " ")` ends the last word. */
  lemma {:induction false} JoinLast(ws: seq<string>)
    requires AreWords(ws) && |ws| > 0
    ensures var j := Join(ws, " "); |j| > 0 && j[|j| - 1] == ws[|ws| - 1][|ws[|ws| - 1]| - 1]
  {
    if |ws| > 1 {
      JoinLast(ws[1..]);
      assert Join(ws, " ") == ws[0] + " " + Join(ws[1..], " ");
    }
  }

  /** A string made of no whitespace at either end is its own `strip()`. */
  lemma StripTrimmed(s: string)
    requires s == [] || (!IsSpace(s[0]) && !IsSpace(s[|s| - 1]))
    ensures Strip(s) == s
  {
  }

  /** `split()` does not see what `strip()` removed. */
  lemma {:induction false} SplitStripLeft(s: string)
    ensures Split(StripLeft(s)) == Split(s)
    decreases |s|
  {
    if s != [] && IsSpace(s[0]) {
      SplitStripLeft(s[1..]);
    }
  }

  lemma {:induction false} SplitTrailingSpace(s: string)
    requires s != [] && IsSpace(s[|s| - 1])
    ensures Split(s) == Split(s[..|s| - 1])
    decreases |s|, 1
  {
    if |s| == 1 {
      assert s[1..] == [] && s[..|s| - 1] == [];
    } else if IsSpace(s[0]) {
      assert s[1..][..|s[1..]| - 1] == s[..|s| - 1][1..];
      SplitTrailingSpace(s[1..]);
      SplitLeadingSpace(s[..|s| - 1]);
    } else {
      SplitTrailingSpaceWord(s);
    }
  }

  /** The case of `SplitTrailingSpace` where the string opens with a word. */
  lemma {:induction false} SplitTrailingSpaceWord(s: string)
    requires |s| > 1 && !IsSpace(s[0]) && IsSpace(s[|s| - 1])
    ensures Split(s) == Split(s[..|s| - 1])
    decreases |s|, 0
  {
    var p := s[..|s| - 1];
    var n := WordLen(s);
    WordLenPrefix(s, |s| - 1);
    SplitFirstWord(s, p);
    if n < |s| - 1 {
      assert s[n..][..|s[n..]| - 1] == p[n..];
      SplitTrailingSpace(s[n..]);
    } else {
      assert s[n..][1..] == [] && p[n..] == [];
      assert Split(s[n..]) == Split(s[n..][1..]);
    }
  }

  /** One unfolding of `Split` past a leading space. */
  lemma SplitLeadingSpace(p: string)
    requires p != [] && IsSpace(p[0])
    ensures Split(p) == Split(p[1..])
  {
  }

  /** `Split` of a string and of its prefix `p` start with the same first word. */
  lemma SplitFirstWord(s: string, p: string)
    requires s != [] && !IsSpace(s[0]) && IsSpace(s[|s| - 1])
    requires p == s[..|s| - 1] && WordLen(p) == WordLen(s)
    ensures WordLen(s) < |s|
    ensures Split(s) == [s[..WordLen(s)]] + Split(s[WordLen(s)..])
    ensures Split(p) == [s[..WordLen(s)]] + Split(p[WordLen(s)..])
  {
    var n := WordLen(s);
    assert p[0] == s[0];
    assert p[..n] == s[..n];
  }

  lemma {:induction false} WordLenPrefix(s: string, m: nat)
    requires WordLen(s) <= m <= |s|
    ensures WordLen(s[..m]) == WordLen(s)
    decreases |s|
  {
    if s != [] && !IsSpace(s[0]) {
      assert s[..m][1..] == s[1..][..m - 1];
      WordLenPrefix(s[1..], m - 1);
    }
  }

  lemma {:induction false} SplitStripRight(s: string)
    ensures Split(StripRight(s)) == Split(s)
    decreases |s|
  {
    if s != [] && IsSpace(s[|s| - 1]) {
      SplitTrailingSpace(s);
      SplitStripRight(s[..|s| - 1]);
    }
  }

  lemma SplitStrip(s: string)
    ensures Split(Strip(s)) == Split(s)
  {
    SplitStripLeft(s);
    SplitStripRight(StripLeft(s));
  }

  /** Only whitespace (or nothing) splits into no words. */
  /** `strip()` of blank text is empty. */
  lemma {:induction false} StripLeftBlank(s: string)
    requires forall i :: 0 <= i < |s| ==> IsSpace(s[i])
    ensures StripLeft(s) == []
    decreases |s|
  {
    if s != [] {
      StripLeftBlank(s[1..]);
    }
  }

  lemma {:induction false} SplitBlank(s: string)
    requires forall i :: 0 <= i < |s| ==> IsSpace(s[i])
    ensures Split(s) == []
    decreases |s|
  {
    if s != [] {
      SplitBlank(s[1..]);
    }
  }

  lemma LowerOfLowered(s: string)
    requires IsLowered(s)
    ensures Lower(s) == s
  {
  }

  lemma ReplaceAbsent(s: string, oldChar: char, newChar: char)
    requires oldChar !in s
    ensures ReplaceChar(s, oldChar, newChar) == s
  {
  }

  /** `s.split(sep)` undoes `sep.join(ws)` when no field holds the separator. */
  lemma {:induction false} FieldsJoin(ws: seq<string>, sep: char)
    requires |ws| >= 1
    requires forall k :: 0 <= k < |ws| ==> sep !in ws[k]
    ensures Fields(Join(ws, [sep]), sep) == ws
  {
    if |ws| == 1 {
      FieldsNoSep(ws[0], sep);
    } else {
      FieldsJoin(ws[1..], sep);
      assert Join(ws, [sep]) == ws[0] + ([sep] + Join(ws[1..], [sep]));
      FieldsPrefix(ws[0], [sep] + Join(ws[1..], [sep]), sep);
    }
  }

  lemma {:induction false} FieldsNoSep(w: string, sep: char)
    requires sep !in w
    ensures Fields(w, sep) == [w]
  {
    if w != [] {
      assert sep !in w[1..];
      FieldsNoSep(w[1..], sep);
      assert [w[0]] + w[1..] == w;
    }
  }

  lemma {:induction false} FieldsPrefix(w: string, t: string, sep: char)
    requires sep !in w
    requires |t| > 0 && t[0] == sep
    ensures Fields(w + t, sep) == [w] + Fields(t[1..], sep)
  {
    if w == [] {
      assert w + t == t;
    } else {
      assert (w + t)[0] == w[0] && w[0] != sep;
      assert (w + t)[1..] == w[1..] + t;
      assert sep !in w[1..];
      FieldsPrefix(w[1..], t, sep);
      assert [w[0]] + w[1..] == w;
    }
  }

  /** The digits of `str(n)` are decimal digits, and read back as `n`. */
  lemma {:induction false} NatToStringDigits(n: nat)
    ensures |NatToString(n)| > 0
    ensures forall i :: 0 <= i < |NatToString(n)| ==> IsDigit(NatToString(n)[i])
    ensures DigitsValue(NatToString(n)) == n
  {
    if n >= 10 {
      NatToStringDigits(n / 10);
      var s := NatToString(n);
      assert s[..|s| - 1] == NatToString(n / 10);
    }
  }

  /** No whitespace at either end, and every whitespace character is a single
      space followed by a non-space: the form `" ".join(s.split())` produces. */
  predicate SpaceNormalized(s: string)
  {
    && (s == [] || (!IsSpace(s[0]) && !IsSpace(s[|s| - 1])))
    && forall i :: 0 <= i < |s| && IsSpace(s[i]) ==> s[i] == ' ' && i + 1 < |s| && !IsSpace(s[i + 1])
  }

  /** `" ".join(ws)` of whitespace-free words is space-normalized. */
  lemma {:induction false} JoinWordsNormalized(ws: seq<string>)
    requires AreWords(ws)
    ensures SpaceNormalized(Join(ws, " "))
  {
    if |ws| == 1 {
      assert NoSpace(ws[0]);
    } else if |ws| > 1 {
      var rest := Join(ws[1..], " ");
      var j := Join(ws, " ");
      assert j == ws[0] + " " + rest;
      JoinWordsNormalized(ws[1..]);
      JoinWordsNonEmpty(ws[1..]);
      assert NoSpace(ws[0]) && NoSpace(ws[1]);
      assert forall i :: 0 <= i < |ws[0]| ==> j[i] == ws[0][i] && !IsSpace(j[i]);
      forall i | |ws[0]| <= i < |j| && IsSpace(j[i])
        ensures j[i] == ' ' && i + 1 < |j| && !IsSpace(j[i + 1])
      {
        if i > |ws[0]| {
          assert j[i] == rest[i - |ws[0]| - 1];
          assert j[i + 1] == rest[i - |ws[0]|];
        } else {
          assert j[i + 1] == rest[0] == ws[1][0];
        }
      }
      assert j[0] == ws[0][0];
      assert j[|j| - 1] == rest[|rest| - 1];
    }
  }
  /** Every character of `" ".join(s.split())` is a space or a character of `s`. */
  lemma JoinSplitChars(s: string)
    ensures forall i :: 0 <= i < |Join(Split(s), " ")| ==>
      Join(Split(s), " ")[i] == ' ' || Join(Split(s), " ")[i] in s
  {
    var ws := Split(s);
    var r := Join(ws, " ");
    forall i | 0 <= i < |r|
      ensures r[i] == ' ' || r[i] in s
    {
      JoinChars(ws, " ", i);
      if r[i] != ' ' {
        var k :| 0 <= k < |ws| && r[i] in ws[k];
        var m :| 0 <= m < |ws[k]| && ws[k][m] == r[i];
        SplitCharsFrom(s, k, m);
      }
    }
  }
}
