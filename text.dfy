/**
 The string operations the label normalisation of `extract_data_from_html` is built from:
 Python's `str.split()`, `' '.join(...)`, `str.strip()` and `str.lower()`.

 The uploaded report is decoded as ISO-8859-1 before it is parsed, so the bytes of the
 document become characters in U+0000..U+00FF; character references such as `&#8195;` or
 `&Omega;` in the HTML can still put other characters into a cell's text. The whitespace class
 below is Python's in full; the case mapping is Python's on U+0000..U+00FF and leaves every
 other character alone.
 */
module Text {

  /** Python's `str.isspace()`, the class `str.split()` and `str.strip()` use: tab to carriage
      return, the four information separators U+001C..U+001F, space, NEL (U+0085), NO-BREAK SPACE
      (U+00A0), OGHAM SPACE MARK (U+1680), the spaces U+2000..U+200A, LINE and PARAGRAPH
      SEPARATOR (U+2028, U+2029), NARROW NO-BREAK SPACE (U+202F), MEDIUM MATHEMATICAL SPACE
      (U+205F) and IDEOGRAPHIC SPACE (U+3000). */
  predicate IsSpace(c: char) {
    if c < '\U{1680}' then
      ('\t' <= c <= '\r') || ('\U{1C}' <= c <= ' ') || c == '\U{85}' || c == '\U{A0}'
    else
      c == '\U{1680}' || ('\U{2000}' <= c <= '\U{200A}') || c == '\U{2028}' || c == '\U{2029}' ||
      c == '\U{202F}' || c == '\U{205F}' || c == '\U{3000}'
  }

  /** Python's `str.lower()` on one character of U+0000..U+00FF: A..Z and the Latin-1 capitals
      U+00C0..U+00DE (except the multiplication sign U+00D7) move down by 0x20. Characters
      outside that range are left alone. */
  function LowerChar(c: char): char {
    if 'A' <= c <= 'Z' || ('\U{C0}' <= c <= '\U{DE}' && c != '\U{D7}') then (c as int + 32) as char else c
  }

  /** Python's `s.lower()`, character by character. */
  function ToLower(s: string): string {
    seq(|s|, i requires 0 <= i < |s| => LowerChar(s[i]))
  }

  lemma LowerCharIdempotent(c: char)
    ensures LowerChar(LowerChar(c)) == LowerChar(c)
    ensures IsSpace(LowerChar(c)) == IsSpace(c)
  {
  }

  /** Lower-casing twice is lower-casing once. */
  lemma ToLowerIdempotent(s: string)
    ensures ToLower(ToLower(s)) == ToLower(s)
  {
    forall i | 0 <= i < |s| ensures ToLower(ToLower(s))[i] == ToLower(s)[i] {
      LowerCharIdempotent(s[i]);
    }
  }

  /** Python's `s.lstrip()`: drop the leading whitespace. */
  function TrimLeft(s: string): (r: string)
    ensures |r| <= |s| && s == s[..|s| - |r|] + r
    ensures forall i :: 0 <= i < |s| - |r| ==> IsSpace(s[i])
    ensures r == [] || !IsSpace(r[0])
  {
    if s != [] && IsSpace(s[0]) then TrimLeft(s[1..]) else s
  }

  /** Python's `s.rstrip()`: drop the trailing whitespace. */
  function TrimRight(s: string): (r: string)
    ensures |r| <= |s| && s == r + s[|r|..]
    ensures forall i :: |r| <= i < |s| ==> IsSpace(s[i])
    ensures r == [] || !IsSpace(r[|r| - 1])
  {
    if s != [] && IsSpace(s[|s| - 1]) then TrimRight(s[..|s| - 1]) else s
  }

  /** Python's `s.strip()`. */
  function Strip(s: string): (r: string)
  {
    TrimRight(TrimLeft(s))
  }

  /** `s` has no leading and no trailing whitespace. */
  predicate IsTrimmed(s: string) {
    s == [] || (!IsSpace(s[0]) && !IsSpace(s[|s| - 1]))
  }

  /** What stripping leaves: a trimmed infix of the input that is empty exactly when the input
      holds nothing but whitespace, and that a second strip leaves alone. */
  lemma StripProperties(s: string)
    ensures IsTrimmed(Strip(s))
    ensures Strip(s) == [] <==> forall i :: 0 <= i < |s| ==> IsSpace(s[i])
    ensures Strip(Strip(s)) == Strip(s)
  {
    var l := TrimLeft(s);
    var r := TrimRight(l);
    if l != [] {
      assert !IsSpace(l[0]);
      assert r != [];
      assert l == r + l[|r|..];
      assert r[0] == l[0];
      assert s[|s| - |l|] == l[0];
    }
    TrimmedIsFixedPoint(r);
  }

  /** A string with no leading or trailing whitespace is its own strip. */
  lemma TrimmedIsFixedPoint(s: string)
    requires IsTrimmed(s)
    ensures Strip(s) == s
  {
    assert TrimLeft(s) == s;
  }

  /** A word of `str.split()`: a non-empty run of non-whitespace characters. */
  predicate IsWord(w: string) {
    w != [] && forall i :: 0 <= i < |w| ==> !IsSpace(w[i])
  }

  /** The longest prefix of `s` that holds no whitespace. */
  function WordPrefix(s: string): (w: string)
    ensures |w| <= |s| && w == s[..|w|]
    ensures forall i :: 0 <= i < |w| ==> !IsSpace(w[i])
    ensures |w| == |s| || IsSpace(s[|w|])
  {
    if s == [] || IsSpace(s[0]) then [] else [s[0]] + WordPrefix(s[1..])
  }

  /** Python's `s.split()` with no separator: the maximal runs of non-whitespace characters,
      in order. */
  function Split(s: string): (ws: seq<string>)
    ensures forall k :: 0 <= k < |ws| ==> IsWord(ws[k])
    decreases |s|
  {
    var t := TrimLeft(s);
    if t == [] then []
    else
      var w := WordPrefix(t);
      FirstWordIsWord(s, t);
      var ws := Split(t[|w|..]);
      WordsCons(w, ws);
      [w] + ws
  }

  /** The whitespace-free prefix of the left-trimmed string, when that is not empty, is a word
      shorter than or as long as the string. */
  lemma FirstWordIsWord(s: string, t: string)
    requires t == TrimLeft(s) && t != []
    ensures IsWord(WordPrefix(t)) && |t| - |WordPrefix(t)| < |s|
  {
  }

  /** A word in front of a list of words gives a list of words. */
  lemma WordsCons(w: string, ws: seq<string>)
    requires IsWord(w) && forall k :: 0 <= k < |ws| ==> IsWord(ws[k])
    ensures forall k :: 0 <= k < |[w] + ws| ==> IsWord(([w] + ws)[k])
  {
  }

  /** Python's `' '.join(ws)`. */
  function JoinSpace(ws: seq<string>): string {
    if |ws| == 0 then ""
    else if |ws| == 1 then ws[0]
    else ws[0] + " " + JoinSpace(ws[1..])
  }

  /** The shape of a normalised label: trimmed, and every whitespace character in it is a
      single space standing between two non-whitespace characters. */
  predicate IsCollapsed(s: string) {
    IsTrimmed(s) && forall i :: 0 <= i < |s| ==> SingleSpaceAt(s, i)
  }

  /** Position `i` of `s` holds no whitespace, or a plain space with a non-whitespace
      character on each side. */
  predicate SingleSpaceAt(s: string, i: int)
    requires 0 <= i < |s|
  {
    IsSpace(s[i]) ==> s[i] == ' ' && 0 < i < |s| - 1 && !IsSpace(s[i - 1]) && !IsSpace(s[i + 1])
  }

  /** Joining words with single spaces gives a collapsed string. */
  lemma {:induction false} JoinSpaceCollapsed(ws: seq<string>)
    requires forall k :: 0 <= k < |ws| ==> IsWord(ws[k])
    ensures IsCollapsed(JoinSpace(ws))
    ensures ws != [] ==> JoinSpace(ws) != []
  {
    if |ws| >= 2 {
      JoinSpaceCollapsed(ws[1..]);
      var w, rest := ws[0], JoinSpace(ws[1..]);
      var j := w + " " + rest;
      assert j == JoinSpace(ws);
      forall i | 0 <= i < |j| ensures SingleSpaceAt(j, i) {
        if i > |w| {
          assert SingleSpaceAt(rest, i - |w| - 1);
          assert j[i] == rest[i - |w| - 1];
        }
      }
      assert j[|j| - 1] == rest[|rest| - 1];
    }
  }

  /** One step of `Split` on a string that starts with a word. */
  lemma SplitStep(s: string)
    requires s != [] && !IsSpace(s[0])
    ensures Split(s) == [WordPrefix(s)] + Split(s[|WordPrefix(s)|..])
  {
    assert TrimLeft(s) == s;
  }

  /** Whitespace in front of a string does not change its words. */
  lemma SplitSkipsSpace(c: char, s: string)
    requires IsSpace(c)
    ensures Split([c] + s) == Split(s)
  {
    assert ([c] + s)[1..] == s;
    assert TrimLeft([c] + s) == TrimLeft(s);
  }

  /** Splitting a space-joined list of words gives the words back. */
  lemma {:induction false} SplitJoinSpace(ws: seq<string>)
    requires forall k :: 0 <= k < |ws| ==> IsWord(ws[k])
    ensures Split(JoinSpace(ws)) == ws
  {
    if |ws| == 1 {
      var w := ws[0];
      WordPrefixOfWord(w, "");
      assert w + "" == w;
      SplitStep(w);
      assert w[|w|..] == [];
    } else if |ws| >= 2 {
      assert ws == [ws[0]] + ws[1..];
      SplitJoinSpace(ws[1..]);
      SplitJoinSpaceStep(ws[0], JoinSpace(ws[1..]));
    }
  }

  /** Splitting `w + " " + rest` yields the word `w` followed by the words of `rest`. */
  lemma SplitJoinSpaceStep(w: string, rest: string)
    requires IsWord(w)
    ensures Split(w + " " + rest) == [w] + Split(rest)
  {
    var j := w + (" " + rest);
    assert j == w + " " + rest;
    WordPrefixOfWord(w, " " + rest);
    assert j[0] == w[0];
    SplitStep(j);
    assert j[|w|..] == [' '] + rest;
    SplitSkipsSpace(' ', rest);
  }

  /** The longest whitespace-free prefix of a word followed by whitespace (or nothing) is the word. */
  lemma {:induction false} WordPrefixOfWord(w: string, tail: string)
    requires IsWord(w)
    requires tail == [] || IsSpace(tail[0])
    ensures WordPrefix(w + tail) == w
  {
    if |w| > 1 {
      WordPrefixOfWord(w[1..], tail);
      assert (w + tail)[1..] == w[1..] + tail;
    } else {
      assert (w + tail)[1..] == tail;
    }
  }

  /** The part of a collapsed string after its first space is collapsed and starts with a word. */
  lemma CollapsedTail(s: string, k: nat)
    requires IsCollapsed(s) && k < |s| && IsSpace(s[k])
    ensures IsCollapsed(s[k + 1..]) && s[k + 1..] != []
  {
    var rest := s[k + 1..];
    assert SingleSpaceAt(s, k);
    forall i | 0 <= i < |rest| ensures SingleSpaceAt(rest, i) {
      assert SingleSpaceAt(s, k + 1 + i);
      assert rest[i] == s[k + 1 + i];
    }
    assert rest[0] == s[k + 1];
    assert rest[|rest| - 1] == s[|s| - 1];
  }

  /** A collapsed string is the space-join of its own words. */
  lemma {:induction false} JoinSpaceSplit(s: string)
    requires IsCollapsed(s)
    ensures JoinSpace(Split(s)) == s
    decreases |s|, 1
  {
    if s == [] {
      assert Split(s) == [];
    } else if |WordPrefix(s)| < |s| {
      JoinSpaceSplitWords(s);
    } else {
      JoinSpaceSplitWord(s);
    }
  }

  /** The recursive case of `JoinSpaceSplit`: a collapsed string with a space. */
  lemma {:induction false} JoinSpaceSplitWords(s: string)
    requires IsCollapsed(s) && s != [] && |WordPrefix(s)| < |s|
    ensures JoinSpace(Split(s)) == s
    decreases |s|, 0
  {
    var rest := s[|WordPrefix(s)| + 1..];
    CollapsedTail(s, |WordPrefix(s)|);
    JoinSpaceSplit(rest);
    JoinSpaceSplitCons(s);
  }

  /** A non-empty collapsed string without a space is one word. */
  lemma JoinSpaceSplitWord(s: string)
    requires IsCollapsed(s) && s != [] && |WordPrefix(s)| == |s|
    ensures JoinSpace(Split(s)) == s
  {
    SplitStep(s);
    assert s[|s|..] == [];
  }

  /** A collapsed string with a space is the join of its words once the part after the first
      space is. */
  lemma JoinSpaceSplitCons(s: string)
    requires IsCollapsed(s) && s != [] && |WordPrefix(s)| < |s|
    requires JoinSpace(Split(s[|WordPrefix(s)| + 1..])) == s[|WordPrefix(s)| + 1..]
    ensures JoinSpace(Split(s)) == s
  {
    var w := WordPrefix(s);
    var rest := s[|w| + 1..];
    CollapsedTail(s, |w|);
    SplitStep(rest);
    CollapsedAtFirstSpace(s);
    JoinSpaceSplitStep(s, w, rest);
  }

  /** A non-empty collapsed string that is not a single word is its first word, a space and the rest. */
  lemma CollapsedAtFirstSpace(s: string)
    requires IsCollapsed(s) && s != [] && |WordPrefix(s)| < |s|
    ensures IsWord(WordPrefix(s))
    ensures s == WordPrefix(s) + " " + s[|WordPrefix(s)| + 1..]
  {
    var w := WordPrefix(s);
    assert s[0] == w[0];
    assert SingleSpaceAt(s, |w|);
    SpaceSplitsString(s, |w|);
  }

  /** One step of `JoinSpaceSplit`: a word, a space and a non-empty string that is the join of its
      own words is the join of its own words. */
  lemma JoinSpaceSplitStep(s: string, w: string, rest: string)
    requires IsWord(w) && s == w + " " + rest
    requires Split(rest) != [] && JoinSpace(Split(rest)) == rest
    ensures JoinSpace(Split(s)) == s
  {
    SplitJoinSpaceStep(w, rest);
    JoinSpaceCons(w, Split(rest));
  }

  /** A string cut around one of its spaces. */
  lemma SpaceSplitsString(s: string, k: nat)
    requires k < |s| && s[k] == ' '
    ensures s == s[..k] + " " + s[k + 1..]
  {
  }

  /** `' '.join` of a word in front of a non-empty list. */
  lemma JoinSpaceCons(w: string, ws: seq<string>)
    requires ws != []
    ensures JoinSpace([w] + ws) == w + " " + JoinSpace(ws)
  {
    assert ([w] + ws)[1..] == ws;
  }

  /** The non-whitespace characters of `s`, in order. */
  function NonSpace(s: string): string {
    if s == [] then [] else (if IsSpace(s[0]) then [] else [s[0]]) + NonSpace(s[1..])
  }

  /** `''.join(ws)`. */
  function Concat(ws: seq<string>): string {
    if ws == [] then [] else ws[0] + Concat(ws[1..])
  }

  lemma {:induction false} NonSpaceAppend(a: string, b: string)
    ensures NonSpace(a + b) == NonSpace(a) + NonSpace(b)
  {
    if a == [] {
      assert a + b == b;
    } else {
      assert (a + b)[1..] == a[1..] + b;
      NonSpaceAppend(a[1..], b);
    }
  }

  lemma {:induction false} NonSpaceTrimLeft(s: string)
    ensures NonSpace(TrimLeft(s)) == NonSpace(s)
  {
    if s != [] && IsSpace(s[0]) {
      NonSpaceTrimLeft(s[1..]);
    }
  }

  lemma {:induction false} NonSpaceWord(w: string)
    requires forall i :: 0 <= i < |w| ==> !IsSpace(w[i])
    ensures NonSpace(w) == w
  {
    if w != [] {
      NonSpaceWord(w[1..]);
    }
  }

  /** `str.split()` loses nothing but whitespace: its words, glued together, are the input's
      non-whitespace characters in order. */
  lemma {:induction false} SplitKeepsText(s: string)
    ensures Concat(Split(s)) == NonSpace(s)
    decreases |s|
  {
    if s != [] && IsSpace(s[0]) {
      assert s == [s[0]] + s[1..];
      SplitSkipsSpace(s[0], s[1..]);
      SplitKeepsText(s[1..]);
    } else if s != [] {
      var w := WordPrefix(s);
      SplitStep(s);
      FirstWordIsWord(s, s);
      SplitKeepsText(s[|w|..]);
      SplitKeepsTextStep(s, w, s[|w|..]);
    }
  }

  /** One word of `SplitKeepsText`. */
  lemma SplitKeepsTextStep(s: string, w: string, rest: string)
    requires IsWord(w) && s == w + rest && Split(s) == [w] + Split(rest)
    requires Concat(Split(rest)) == NonSpace(rest)
    ensures Concat(Split(s)) == NonSpace(s)
  {
    NonSpaceAppend(w, rest);
    NonSpaceWord(w);
    assert ([w] + Split(rest))[1..] == Split(rest);
  }

  /** `str.split()` breaks at every whitespace character: one between two pieces of text
      separates their words, whichever whitespace character it is. With `SplitJoinSpace` on a
      single word this determines `Split` completely. */
  lemma {:induction false} SplitSeparates(a: string, c: char, b: string)
    requires IsSpace(c)
    ensures Split(a + [c] + b) == Split(a) + Split(b)
    decreases |a|, 1
  {
    if a == [] {
      assert a + [c] + b == [c] + b;
      SplitSkipsSpace(c, b);
    } else if IsSpace(a[0]) {
      var a' := a[1..];
      SpaceHeadSplit(a, a', c, b);
      SplitSkipsSpace(a[0], a' + [c] + b);
      SplitSkipsSpace(a[0], a');
      SplitSeparates(a', c, b);
    } else {
      SplitSeparatesWord(a, c, b);
    }
  }

  /** The case of `SplitSeparates` where `a` starts with a word. */
  lemma {:induction false} SplitSeparatesWord(a: string, c: char, b: string)
    requires IsSpace(c) && a != [] && !IsSpace(a[0])
    ensures Split(a + [c] + b) == Split(a) + Split(b)
    decreases |a|, 0
  {
    var w := WordPrefix(a);
    var a' := a[|w|..];
    WordPrefixExtend(a, c, b);
    WordHeadSplit(a, |w|, c, b);
    SplitWordCons(a + [c] + b, w, a' + [c] + b);
    SplitWordCons(a, w, a');
    SplitSeparates(a', c, b);
    ConsAssoc(w, Split(a'), Split(b));
  }

  /** `SplitStep` with the first word and the rest named. */
  lemma SplitWordCons(s: string, w: string, rest: string)
    requires s != [] && !IsSpace(s[0]) && w == WordPrefix(s) && rest == s[|w|..]
    ensures Split(s) == [w] + Split(rest)
  {
    SplitStep(s);
  }

  /** The sequence identities behind the whitespace case of `SplitSeparates`. */
  lemma SpaceHeadSplit(a: string, a': string, c: char, b: string)
    requires a != [] && a' == a[1..]
    ensures a == [a[0]] + a'
    ensures a + [c] + b == [a[0]] + (a' + [c] + b)
  {
  }

  /** The sequence identities behind the word case of `SplitSeparates`. */
  lemma WordHeadSplit(a: string, n: nat, c: char, b: string)
    requires 0 < n <= |a|
    ensures (a + [c] + b)[0] == a[0]
    ensures (a + [c] + b)[n..] == a[n..] + [c] + b
  {
  }

  /** Regrouping a word in front of two lists of words. */
  lemma ConsAssoc(w: string, xs: seq<string>, ys: seq<string>)
    ensures [w] + (xs + ys) == ([w] + xs) + ys
  {
  }

  /** Whitespace after a string does not change its longest whitespace-free prefix. */
  lemma WordPrefixExtend(a: string, c: char, b: string)
    requires IsSpace(c)
    ensures WordPrefix(a + [c] + b) == WordPrefix(a)
  {
    var w := WordPrefix(a);
    var t := [c] + b;
    assert a + [c] + b == a + t;
    if w == [] {
      assert a == [] || IsSpace(a[0]);
      assert a == [] ==> a + t == t;
      assert a != [] ==> (a + t)[0] == a[0];
    } else {
      var tail := a[|w|..] + t;
      assert a + t == w + tail;
      assert tail[0] == if |w| == |a| then t[0] else a[|w|];
      WordPrefixOfWord(w, tail);
    }
  }

  /** A whitespace character in a cell's text acts as a plain space: the label normalises the
      same way once it is replaced by one. */
  lemma NormalizeSeparates(a: string, c: char, b: string)
    requires IsSpace(c)
    ensures NormalizeLabel(a + [c] + b) == NormalizeLabel(a + " " + b)
  {
    SplitSeparates(a, c, b);
    SplitSeparates(a, ' ', b);
  }

  /** Joining words with spaces adds nothing but whitespace. */
  lemma {:induction false} NonSpaceJoinSpace(ws: seq<string>)
    requires forall k :: 0 <= k < |ws| ==> IsWord(ws[k])
    ensures NonSpace(JoinSpace(ws)) == Concat(ws)
  {
    if |ws| == 1 {
      NonSpaceWord(ws[0]);
      assert ws[0] + [] == ws[0];
    } else if |ws| >= 2 {
      NonSpaceJoinSpace(ws[1..]);
      NonSpaceWord(ws[0]);
      NonSpaceAppend(ws[0] + " ", JoinSpace(ws[1..]));
      NonSpaceAppend(ws[0], " ");
      assert NonSpace(" ") == [];
    }
  }

  /** Lower-casing commutes with dropping whitespace, since it maps whitespace to whitespace. */
  lemma {:induction false} NonSpaceToLower(s: string)
    ensures NonSpace(ToLower(s)) == ToLower(NonSpace(s))
  {
    if s != [] {
      NonSpaceToLower(s[1..]);
      LowerCharIdempotent(s[0]);
      assert ToLower(s)[1..] == ToLower(s[1..]);
      var head := if IsSpace(s[0]) then [] else [s[0]];
      ToLowerAppend(head, NonSpace(s[1..]));
    }
  }

  lemma ToLowerAppend(a: string, b: string)
    ensures ToLower(a + b) == ToLower(a) + ToLower(b)
  {
  }

  /** Lower-casing keeps a string collapsed, since it maps whitespace to whitespace and
      nothing else to whitespace. */
  lemma ToLowerCollapsed(s: string)
    requires IsCollapsed(s)
    ensures IsCollapsed(ToLower(s))
  {
    var r := ToLower(s);
    forall i | 0 <= i < |s| ensures IsSpace(r[i]) == IsSpace(s[i]) && (s[i] == ' ' ==> r[i] == ' ') {
      LowerCharIdempotent(s[i]);
    }
    forall i | 0 <= i < |r| ensures SingleSpaceAt(r, i) {
      assert SingleSpaceAt(s, i);
    }
  }

  /** The normalisation of a table cell's text into a matching key:
      `' '.join(text.split()).strip().lower()`. */
  function NormalizeLabel(s: string): (r: string)
  {
    ToLower(Strip(JoinSpace(Split(s))))
  }

  /** A normalised label is collapsed (no leading or trailing whitespace, no two whitespace
      characters in a row, only plain spaces), and normalising it again changes nothing. */
  lemma NormalizeLabelProperties(s: string)
    ensures IsCollapsed(NormalizeLabel(s))
    ensures NormalizeLabel(NormalizeLabel(s)) == NormalizeLabel(s)
  {
    var j := JoinSpace(Split(s));
    JoinSpaceCollapsed(Split(s));
    TrimmedIsFixedPoint(j);
    var n := ToLower(j);
    assert NormalizeLabel(s) == n;
    ToLowerCollapsed(j);
    JoinSpaceSplit(n);
    TrimmedIsFixedPoint(n);
    ToLowerIdempotent(j);
  }

  /** The normalisation keeps the label's text: dropping whitespace from the key gives the
      lower-cased non-whitespace characters of the cell, in order. */
  lemma NormalizeKeepsText(s: string)
    ensures NonSpace(NormalizeLabel(s)) == ToLower(NonSpace(s))
  {
    StripAfterJoinIsNoOp(s);
    NonSpaceToLower(JoinSpace(Split(s)));
    NonSpaceJoinSpace(Split(s));
    SplitKeepsText(s);
  }

  /** The `.strip()` written after the join at app.py:67 never changes anything. */
  lemma StripAfterJoinIsNoOp(s: string)
    ensures Strip(JoinSpace(Split(s))) == JoinSpace(Split(s))
  {
    JoinSpaceCollapsed(Split(s));
    TrimmedIsFixedPoint(JoinSpace(Split(s)));
  }

  /** A collapsed string normalises to its lower-case form: whitespace-collapsing leaves it alone. */
  lemma NormalizeCollapsed(s: string)
    requires IsCollapsed(s)
    ensures NormalizeLabel(s) == ToLower(s)
  {
    JoinSpaceSplit(s);
    TrimmedIsFixedPoint(s);
  }
}
