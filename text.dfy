/** The handful of Python string and list operations the script applies to
    the text of a candidate-details page and to bookmark titles:
    `str.split('\n')`, `str.strip()`, `str.split()` with no argument,
    `list.index`, and the substring tests that the title patterns reduce to. */
module Text {
  import opened Base

  /** Python's `str.isspace()` for one character: the set `str.strip()` and
      `str.split()` treat as whitespace (ASCII 9-13 and 28-32, NEL, NBSP,
      OGHAM SPACE MARK, the spaces U+2000-U+200A, the line and paragraph
      separators, NNBSP, MMSP and the ideographic space). */
  predicate IsSpace(c: char)
  {
    var n := c as int;
    (9 <= n <= 13) || (28 <= n <= 32) || n == 0x85 || n == 0xA0 || n == 0x1680
    || (0x2000 <= n <= 0x200A) || n == 0x2028 || n == 0x2029 || n == 0x202F
    || n == 0x205F || n == 0x3000
  }

  predicate NoSpace(w: string)
  {
    forall i :: 0 <= i < |w| ==> !IsSpace(w[i])
  }

  /** What `str.split()` yields: a non-empty run without whitespace. */
  predicate IsWord(w: string)
  {
    w != [] && NoSpace(w)
  }

  predicate AllSpace(w: string)
  {
    forall i :: 0 <= i < |w| ==> IsSpace(w[i])
  }

  /** `s.lstrip()`. */
  function TrimStart(s: string): (r: string)
    ensures |r| <= |s|
  {
    if s != [] && IsSpace(s[0]) then TrimStart(s[1..]) else s
  }

  /** `s.rstrip()`. */
  function TrimEnd(s: string): (r: string)
    ensures |r| <= |s|
  {
    if s != [] && IsSpace(s[|s| - 1]) then TrimEnd(s[..|s| - 1]) else s
  }

  /** `lstrip` drops the leading whitespace and nothing else. */
  lemma {:induction false} TrimStartSpec(s: string)
    ensures var r := TrimStart(s);
      && |r| <= |s| && r == s[|s| - |r|..]
      && AllSpace(s[..|s| - |r|])
      && (r == [] || !IsSpace(r[0]))
  {
    if s != [] && IsSpace(s[0]) {
      TrimStartSpec(s[1..]);
      var r := TrimStart(s);
      assert s[..|s| - |r|] == [s[0]] + s[1..][..|s| - 1 - |r|];
    }
  }

  /** `rstrip` drops the trailing whitespace and nothing else. */
  lemma {:induction false} TrimEndSpec(s: string)
    ensures var r := TrimEnd(s);
      && |r| <= |s| && r == s[..|r|]
      && AllSpace(s[|r|..])
      && (r == [] || !IsSpace(r[|r| - 1]))
  {
    if s != [] && IsSpace(s[|s| - 1]) {
      var init := s[..|s| - 1];
      TrimEndSpec(init);
      var r := TrimEnd(s);
      assert s[|r|..] == init[|r|..] + [s[|s| - 1]];
    }
  }

  /** `s.strip()`. */
  function Strip(s: string): string
  {
    TrimEnd(TrimStart(s))
  }

  /** `Strip(s)` is the slice of `s` left once the whitespace at both ends
      is cut off: it is bounded by non-whitespace, and everything cut is
      whitespace. */
  lemma StripIsCore(s: string)
    ensures var r, i := Strip(s), |s| - |TrimStart(s)|;
      && i + |r| <= |s| && s[i..i + |r|] == r
      && AllSpace(s[..i]) && AllSpace(s[i + |r|..])
      && (r == [] || (!IsSpace(r[0]) && !IsSpace(r[|r| - 1])))
  {
    var t := TrimStart(s);
    var r := TrimEnd(t);
    var i := |s| - |t|;
    TrimStartSpec(s);
    TrimEndSpec(t);
    assert t == s[i..];
    assert r == t[..|r|];
    assert s[i..i + |r|] == t[..|r|];
    assert s[i + |r|..] == t[|r|..];
  }

  /** The longest prefix of `s` that holds no whitespace. */
  function TakeWord(s: string): (w: string)
    ensures |w| <= |s|
  {
    if s == [] || IsSpace(s[0]) then [] else [s[0]] + TakeWord(s[1..])
  }

  /** `TakeWord` stops at the first whitespace character or at the end. */
  lemma {:induction false} TakeWordSpec(s: string)
    ensures var w := TakeWord(s);
      w == s[..|w|] && NoSpace(w) && (|w| == |s| || IsSpace(s[|w|]))
  {
    if s != [] && !IsSpace(s[0]) {
      TakeWordSpec(s[1..]);
    }
  }

  /** `s.split()`: the maximal runs of non-whitespace characters, in order. */
  function Words(s: string): seq<string>
    decreases |s|
  {
    if s == [] then []
    else if IsSpace(s[0]) then Words(s[1..])
    else
      var w := TakeWord(s);
      [w] + Words(s[|w|..])
  }

  /** Every piece `str.split()` yields is a word. */
  lemma {:induction false} WordsAreWords(s: string)
    ensures forall k :: 0 <= k < |Words(s)| ==> IsWord(Words(s)[k])
    decreases |s|
  {
    if s != [] {
      if IsSpace(s[0]) {
        WordsAreWords(s[1..]);
      } else {
        var w := TakeWord(s);
        TakeWordSpec(s);
        WordsAreWords(s[|w|..]);
      }
    }
  }

  lemma {:induction false} TakeWordBeforeSpace(w: string, t: string)
    requires NoSpace(w) && (t == [] || IsSpace(t[0]))
    ensures TakeWord(w + t) == w
  {
    if w == [] {
      assert w + t == t;
    } else {
      assert (w + t)[1..] == w[1..] + t;
      TakeWordBeforeSpace(w[1..], t);
    }
  }

  lemma WordsOfWordThen(w: string, t: string)
    requires IsWord(w) && (t == [] || IsSpace(t[0]))
    ensures Words(w + t) == [w] + Words(t)
  {
    var s := w + t;
    assert s[0] == w[0];
    TakeWordBeforeSpace(w, t);
    assert s[|w|..] == t;
  }

  lemma WordsAfterSpace(u: string)
    ensures Words([' '] + u) == Words(u)
  {
    assert ([' '] + u)[1..] == u;
  }

  lemma WordsOfJoinedStep(ws: seq<string>)
    requires |ws| >= 2 && IsWord(ws[0])
    ensures Words(JoinWith(ws, ' ')) == [ws[0]] + Words(JoinWith(ws[1..], ' '))
  {
    var u := JoinWith(ws[1..], ' ');
    var t := [' '] + u;
    assert JoinWith(ws, ' ') == ws[0] + t;
    WordsOfWordThen(ws[0], t);
    WordsAfterSpace(u);
  }

  /** Whitespace in front of a text adds no word. */
  lemma {:induction false} WordsAfterSpaces(sp: string, u: string)
    requires AllSpace(sp)
    ensures Words(sp + u) == Words(u)
    decreases |sp|
  {
    if sp != [] {
      assert (sp + u)[0] == sp[0];
      assert (sp + u)[1..] == sp[1..] + u;
      WordsAfterSpaces(sp[1..], u);
    } else {
      assert sp + u == u;
    }
  }

  /** A line laid out as the whitespace run `seps[0]`, the word `ws[0]`,
      the run `seps[1]`, ..., the word `ws[n-1]` and the run `seps[n]`. */
  function Layout(ws: seq<string>, seps: seq<string>): string
    requires |seps| == |ws| + 1
    decreases |ws|
  {
    if ws == [] then seps[0] else seps[0] + ws[0] + Layout(ws[1..], seps[1..])
  }

  /** `str.split()` finds the words of any such line, whatever whitespace
      runs surround them, as long as neighbouring words are apart. */
  lemma {:induction false} WordsOfLayout(ws: seq<string>, seps: seq<string>)
    requires |seps| == |ws| + 1
    requires forall k :: 0 <= k < |ws| ==> IsWord(ws[k])
    requires forall k :: 0 <= k < |seps| ==> AllSpace(seps[k])
    requires forall k :: 0 < k < |ws| ==> seps[k] != []
    ensures Words(Layout(ws, seps)) == ws
    decreases |ws|
  {
    if ws == [] {
      WordsAfterSpaces(seps[0], []);
      assert seps[0] + [] == seps[0];
    } else {
      var rest := Layout(ws[1..], seps[1..]);
      assert Layout(ws, seps) == seps[0] + (ws[0] + rest);
      WordsAfterSpaces(seps[0], ws[0] + rest);
      if |ws| > 1 {
        assert rest == seps[1] + (ws[1] + Layout(ws[2..], seps[2..]));
        assert rest[0] == seps[1][0];
      } else {
        assert rest == seps[1];
      }
      WordsOfWordThen(ws[0], rest);
      WordsOfLayout(ws[1..], seps[1..]);
      assert ws == [ws[0]] + ws[1..];
    }
  }

  /** "Mr", two spaces, "John", a tab, "Public": three words. */
  lemma SpacedAndTabbedWords()
    ensures Words(Layout(["Mr", "John", "Public"], ["", "  ", "\t", ""])) == ["Mr", "John", "Public"]
  {
    var ws, seps := ["Mr", "John", "Public"], ["", "  ", "\t", ""];
    assert forall k :: 0 <= k < |ws| ==> IsWord(ws[k]);
    assert forall k :: 0 <= k < |seps| ==> AllSpace(seps[k]);
    WordsOfLayout(ws, seps);
  }

  /** `' '.join(words).split()` gives back words that hold no whitespace. */
  lemma {:induction false} WordsOfJoined(ws: seq<string>)
    requires |ws| >= 1
    requires forall k :: 0 <= k < |ws| ==> IsWord(ws[k])
    ensures Words(JoinWith(ws, ' ')) == ws
  {
    if |ws| == 1 {
      WordsOfWordThen(ws[0], []);
      assert ws[0] + [] == ws[0];
    } else {
      WordsOfJoinedStep(ws);
      WordsOfJoined(ws[1..]);
      assert ws == [ws[0]] + ws[1..];
    }
  }

  /** The characters of `s` that are not whitespace, in order. */
  function Letters(s: string): string
  {
    if s == [] then [] else (if IsSpace(s[0]) then [] else [s[0]]) + Letters(s[1..])
  }

  function Concat(ws: seq<string>): string
  {
    if ws == [] then [] else ws[0] + Concat(ws[1..])
  }

  lemma {:induction false} LettersAppend(a: string, b: string)
    ensures Letters(a + b) == Letters(a) + Letters(b)
  {
    if a == [] {
      assert a + b == b;
    } else {
      assert (a + b)[1..] == a[1..] + b;
      LettersAppend(a[1..], b);
    }
  }

  lemma {:induction false} LettersOfWord(w: string)
    requires NoSpace(w)
    ensures Letters(w) == w
  {
    if w != [] {
      LettersOfWord(w[1..]);
    }
  }

  /** `str.split()` loses only whitespace: gluing the words back together
      gives every other character of the line, in order. */
  lemma {:induction false} WordsKeepLetters(s: string)
    ensures Concat(Words(s)) == Letters(s)
    decreases |s|
  {
    if s != [] {
      if IsSpace(s[0]) {
        WordsKeepLetters(s[1..]);
      } else {
        var w := TakeWord(s);
        TakeWordSpec(s);
        var rest := s[|w|..];
        assert s == w + rest;
        LettersAppend(w, rest);
        LettersOfWord(w);
        WordsKeepLetters(rest);
        assert Words(s) == [w] + Words(rest);
        assert Concat(Words(s)) == w + Concat(Words(rest));
      }
    }
  }

  /** `sep.join(parts)` begins with the first character of the first part,
      ends with the last character of the last part, and holds a character
      other than `sep` only where some part does. */
  lemma {:induction false} JoinWithEnds(parts: seq<string>, sep: char, c: char)
    requires |parts| >= 1
    requires c != sep && forall k :: 0 <= k < |parts| ==> parts[k] != [] && c !in parts[k]
    ensures var s := JoinWith(parts, sep);
      s != [] && s[0] == parts[0][0] && s[|s| - 1] == parts[|parts| - 1][|parts[|parts| - 1]| - 1]
      && c !in s
  {
    if |parts| > 1 {
      JoinWithEnds(parts[1..], sep, c);
    }
  }

  /** `s.split(sep)` for a one-character separator: at least one piece, and
      no piece holds `sep`. */
  function SplitOn(s: string, sep: char): (r: seq<string>)
    ensures |r| >= 1
    ensures forall k :: 0 <= k < |r| ==> sep !in r[k]
  {
    if s == [] then [[]]
    else
      var tail := SplitOn(s[1..], sep);
      if s[0] == sep then [[]] + tail else [[s[0]] + tail[0]] + tail[1..]
  }

  /** `sep.join(parts)`. */
  function JoinWith(parts: seq<string>, sep: char): string
    requires |parts| >= 1
  {
    if |parts| == 1 then parts[0] else parts[0] + [sep] + JoinWith(parts[1..], sep)
  }

  /** Splitting loses nothing: joining the pieces with the separator gives
      the text back. */
  lemma {:induction false} JoinSplit(s: string, sep: char)
    ensures JoinWith(SplitOn(s, sep), sep) == s
  {
    if s != [] {
      var tail := SplitOn(s[1..], sep);
      JoinSplit(s[1..], sep);
      if s[0] == sep {
        assert SplitOn(s, sep)[1..] == tail;
      } else {
        var r := SplitOn(s, sep);
        assert r[0] == [s[0]] + tail[0] && r[1..] == tail[1..];
        if |tail| > 1 {
          assert JoinWith(tail, sep) == tail[0] + [sep] + JoinWith(tail[1..], sep);
        }
      }
    }
  }

  /** The first piece is the text before the first `sep`, all of `s` when
      there is none. */
  lemma FirstPiece(s: string, sep: char)
    ensures var p := SplitOn(s, sep)[0];
      |p| <= |s| && p == s[..|p|] && (|p| == |s| || s[|p|] == sep)
  {
    var r := SplitOn(s, sep);
    JoinSplit(s, sep);
    if |r| > 1 {
      assert s == r[0] + [sep] + JoinWith(r[1..], sep);
    }
  }

  lemma {:induction false} SplitAfterWord(w: string, t: string, sep: char)
    requires sep !in w
    ensures SplitOn(w + t, sep) == [w + SplitOn(t, sep)[0]] + SplitOn(t, sep)[1..]
  {
    if w != [] {
      assert (w + t)[0] == w[0];
      assert (w + t)[1..] == w[1..] + t;
      SplitAfterWord(w[1..], t, sep);
      assert [w[0]] + (w[1..] + SplitOn(t, sep)[0]) == w + SplitOn(t, sep)[0];
    } else {
      assert w + t == t;
      var r := SplitOn(t, sep);
      assert w + r[0] == r[0];
      assert r == [r[0]] + r[1..];
    }
  }

  /** Joining pieces that do not hold the separator and splitting again
      gives the same pieces back. */
  lemma {:induction false} SplitJoin(parts: seq<string>, sep: char)
    requires |parts| >= 1
    requires forall k :: 0 <= k < |parts| ==> sep !in parts[k]
    ensures SplitOn(JoinWith(parts, sep), sep) == parts
  {
    if |parts| == 1 {
      SplitAfterWord(parts[0], [], sep);
      assert parts[0] + [] == parts[0];
    } else {
      var t := [sep] + JoinWith(parts[1..], sep);
      assert JoinWith(parts, sep) == parts[0] + t;
      SplitAfterWord(parts[0], t, sep);
      SplitJoin(parts[1..], sep);
      assert t[1..] == JoinWith(parts[1..], sep);
      assert SplitOn(t, sep) == [[]] + parts[1..];
      assert parts[0] + [] == parts[0];
    }
  }

  /** `xs.index(x)`: the position of the first element equal to `x`, or
      nothing (Python raises ValueError) when there is none. */
  function IndexOf<T(==)>(xs: seq<T>, x: T): (r: Option<nat>)
    ensures r.Some? ==> r.value < |xs| && xs[r.value] == x
    ensures r.Some? ==> forall j :: 0 <= j < r.value ==> xs[j] != x
    ensures r.None? <==> x !in xs
  {
    if xs == [] then None
    else if xs[0] == x then Some(0)
    else match IndexOf(xs[1..], x)
      case None => None
      case Some(j) => Some(j + 1)
  }

  /** Python's `pat in s` for strings. */
  predicate Contains(s: string, pat: string)
    decreases |s|
  {
    |pat| <= |s| && (s[..|pat|] == pat || Contains(s[1..], pat))
  }

  ghost predicate OccursAt(s: string, pat: string, k: int)
  {
    0 <= k && k + |pat| <= |s| && s[k..k + |pat|] == pat
  }

  /** `Contains` finds an occurrence exactly when there is one. */
  lemma {:induction false} ContainsFindsOccurrence(s: string, pat: string)
    ensures Contains(s, pat) <==> exists k :: OccursAt(s, pat, k)
    decreases |s|
  {
    if |pat| <= |s| {
      if s[..|pat|] == pat {
        assert OccursAt(s, pat, 0);
      } else {
        ContainsFindsOccurrence(s[1..], pat);
        if Contains(s[1..], pat) {
          var k :| OccursAt(s[1..], pat, k);
          assert s[k + 1..k + 1 + |pat|] == s[1..][k..k + |pat|];
          assert OccursAt(s, pat, k + 1);
        }
        if k :| OccursAt(s, pat, k) {
          assert k != 0;
          assert s[1..][k - 1..k - 1 + |pat|] == s[k..k + |pat|];
          assert OccursAt(s[1..], pat, k - 1);
        }
      }
    }
  }

  predicate EndsWith(s: string, suffix: string)
  {
    |suffix| <= |s| && s[|s| - |suffix|..] == suffix
  }
}
