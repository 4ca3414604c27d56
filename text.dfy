/**
 * The string operations the service relies on, as Python defines them for `str`:
 * `str.isspace` on one character, `str.strip()`, `str.lower()` and the regular
 * expression substitution `re.sub(r'\s+', ' ', s)`, which replaces every maximal
 * run of whitespace by one space.
 */
module Text {

  /** Python's whitespace characters: those for which `str.isspace` holds, which
      are also the characters the regular-expression class `\s` matches in a `str`
      pattern and the ones `str.strip()` removes. */
  predicate IsSpace(c: char) {
    var n := c as int;
    (9 <= n <= 13) || (28 <= n <= 32) || n == 0x85 || n == 0xA0 || n == 0x1680
    || (0x2000 <= n <= 0x200A) || n == 0x2028 || n == 0x2029 || n == 0x202F
    || n == 0x205F || n == 0x3000
  }

  predicate IsUpper(c: char) {
    'A' <= c <= 'Z'
  }

  /** Lower-casing of one character (ASCII letters only). */
  function LowerChar(c: char): (d: char)
    ensures !IsUpper(d)
    ensures IsSpace(d) == IsSpace(c)
    ensures !IsUpper(c) ==> d == c
    ensures IsUpper(c) ==> d as int == c as int + 32
  {
    if IsUpper(c) then (c as int + 32) as char else c
  }

  /** `s.lower()`: every character lower-cased, in place. */
  function Lower(s: string): (r: string)
    ensures |r| == |s|
    ensures forall i :: 0 <= i < |s| ==> r[i] == LowerChar(s[i])
    ensures NoUpper(r)
  {
    seq(|s|, i requires 0 <= i < |s| => LowerChar(s[i]))
  }

  // ---------------------------------------------------------------------------
  // Shapes of a string

  predicate AllSpace(s: string) {
    forall i :: 0 <= i < |s| ==> IsSpace(s[i])
  }

  predicate NoEdgeSpace(s: string) {
    s == [] || (!IsSpace(s[0]) && !IsSpace(s[|s| - 1]))
  }

  predicate NoDoubleSpace(s: string) {
    forall i :: 0 <= i < |s| - 1 ==> !(IsSpace(s[i]) && IsSpace(s[i + 1]))
  }

  /** The only whitespace character left is the plain space. */
  predicate PlainSpacesOnly(s: string) {
    forall i :: 0 <= i < |s| && IsSpace(s[i]) ==> s[i] == ' '
  }

  predicate NoUpper(s: string) {
    forall i :: 0 <= i < |s| ==> !IsUpper(s[i])
  }

  /** The characters of `s` that are not whitespace, in order. */
  function NonSpace(s: string): string {
    if s == [] then []
    else (if IsSpace(s[0]) then [] else [s[0]]) + NonSpace(s[1..])
  }

  // ---------------------------------------------------------------------------
  // str.strip()

  /** `s.lstrip()`: the suffix of `s` left after its leading whitespace. */
  function TrimStart(s: string): (r: string)
    ensures |r| <= |s|
    ensures forall i :: 0 <= i < |s| - |r| ==> IsSpace(s[i])
    ensures r != [] ==> !IsSpace(r[0])
  {
    if s != [] && IsSpace(s[0]) then TrimStart(s[1..]) else s
  }

  /** `s.rstrip()`: the prefix of `s` left before its trailing whitespace. */
  function TrimEnd(s: string): (r: string)
    ensures |r| <= |s|
    ensures forall i :: |r| <= i < |s| ==> IsSpace(s[i])
    ensures r != [] ==> !IsSpace(r[|r| - 1])
  {
    if s != [] && IsSpace(s[|s| - 1]) then TrimEnd(s[..|s| - 1]) else s
  }

  /** `lstrip()` keeps a suffix of `s`. */
  lemma {:induction false} TrimStartIsSuffix(s: string)
    ensures TrimStart(s) == s[|s| - |TrimStart(s)|..]
  {
    if s != [] && IsSpace(s[0]) {
      TrimStartIsSuffix(s[1..]);
      assert s[1..][|s| - 1 - |TrimStart(s)|..] == s[|s| - |TrimStart(s)|..];
    }
  }

  /** `rstrip()` keeps a prefix of `s`. */
  lemma {:induction false} TrimEndIsPrefix(s: string)
    ensures TrimEnd(s) == s[..|TrimEnd(s)|]
  {
    if s != [] && IsSpace(s[|s| - 1]) {
      TrimEndIsPrefix(s[..|s| - 1]);
      assert s[..|s| - 1][..|TrimEnd(s)|] == s[..|TrimEnd(s)|];
    }
  }

  /** `s.strip()`: `s` without its leading and its trailing whitespace. */
  function Strip(s: string): string {
    TrimEnd(TrimStart(s))
  }

  /** `strip()` keeps the part of `s` between its leading and its trailing
      whitespace: `s` is that part with only whitespace `before` and `after`
      it, and none is left at either end. */
  lemma StripShape(s: string) returns (before: string, after: string)
    ensures NoEdgeSpace(Strip(s))
    ensures AllSpace(before) && AllSpace(after) && s == before + Strip(s) + after
  {
    StripEdges(s);
    before := TrimStartSplits(s);
    after := TrimEndSplits(TrimStart(s));
    assert before + (Strip(s) + after) == (before + Strip(s)) + after;
  }

  /** `s` is the whitespace `lstrip()` cuts off followed by what it keeps. */
  lemma TrimStartSplits(s: string) returns (w: string)
    ensures AllSpace(w) && s == w + TrimStart(s)
  {
    w := s[..|s| - |TrimStart(s)|];
    TrimStartIsSuffix(s);
    TrimStartCut(s);
  }

  /** `s` is what `rstrip()` keeps followed by the whitespace it cuts off. */
  lemma TrimEndSplits(s: string) returns (w: string)
    ensures AllSpace(w) && s == TrimEnd(s) + w
  {
    w := s[|TrimEnd(s)|..];
    TrimEndIsPrefix(s);
    TrimEndCut(s);
  }

  lemma StripEdges(s: string)
    ensures NoEdgeSpace(Strip(s))
  {
    var t := TrimStart(s);
    var r := TrimEnd(t);
    TrimEndIsPrefix(t);
    if r != [] {
      assert r[0] == t[0];
    }
  }

  /** What `lstrip()` cuts off is whitespace. */
  lemma TrimStartCut(s: string)
    ensures AllSpace(s[..|s| - |TrimStart(s)|])
  {
    var before := s[..|s| - |TrimStart(s)|];
    forall i | 0 <= i < |before| ensures IsSpace(before[i]) {
      assert before[i] == s[i];
    }
  }

  /** What `rstrip()` cuts off is whitespace. */
  lemma TrimEndCut(s: string)
    ensures AllSpace(s[|TrimEnd(s)|..])
  {
    var after := s[|TrimEnd(s)|..];
    forall i | 0 <= i < |after| ensures IsSpace(after[i]) {
      assert after[i] == s[|TrimEnd(s)| + i];
    }
  }

  // ---------------------------------------------------------------------------
  // re.sub(r'\s+', ' ', s)

  /** Every maximal run of whitespace in `s` replaced by one plain space. */
  function CollapseSpaces(s: string): (r: string)
    ensures |r| <= |s|
    decreases |s|
  {
    if s == [] then []
    else if IsSpace(s[0]) then [' '] + CollapseSpaces(TrimStart(s[1..]))
    else [s[0]] + CollapseSpaces(s[1..])
  }

  /** The collapsed string keeps the first and last characters of a string that
      does not start or end with whitespace, and turns a leading run into a space. */
  lemma {:induction false} CollapseSpacesEnds(s: string)
    ensures CollapseSpaces(s) == [] <==> s == []
    ensures s != [] && !IsSpace(s[0]) ==> CollapseSpaces(s)[0] == s[0]
    ensures s != [] && IsSpace(s[0]) ==> CollapseSpaces(s)[0] == ' '
    ensures s != [] && !IsSpace(s[|s| - 1]) ==> !IsSpace(CollapseSpaces(s)[|CollapseSpaces(s)| - 1])
    decreases |s|
  {
    if s != [] {
      var r := CollapseSpaces(s);
      if IsSpace(s[0]) {
        var rest := TrimStart(s[1..]);
        if !IsSpace(s[|s| - 1]) {
          assert |s| > 1;
          TrimStartIsSuffix(s[1..]);
          assert rest != [] && rest[|rest| - 1] == s[|s| - 1];
          CollapseSpacesEnds(rest);
        }
      } else if |s| > 1 {
        CollapseSpacesEnds(s[1..]);
      }
    }
  }

  /** No two whitespace characters are adjacent in the collapsed string, and the
      only whitespace in it is the plain space. */
  lemma {:induction false} CollapseSpacesShape(s: string)
    ensures NoDoubleSpace(CollapseSpaces(s)) && PlainSpacesOnly(CollapseSpaces(s))
    decreases |s|
  {
    if s != [] {
      if IsSpace(s[0]) {
        var rest := TrimStart(s[1..]);
        CollapseSpacesShape(rest);
        CollapseSpacesEnds(rest);
      } else {
        CollapseSpacesShape(s[1..]);
      }
    }
  }

  /** Collapsing keeps every non-whitespace character, in order. */
  lemma {:induction false} CollapseSpacesKeepsText(s: string)
    ensures NonSpace(CollapseSpaces(s)) == NonSpace(s)
    decreases |s|
  {
    if s != [] {
      var r := CollapseSpaces(s);
      if IsSpace(s[0]) {
        var rest := TrimStart(s[1..]);
        CollapseSpacesKeepsText(rest);
        TrimStartIsSuffix(s[1..]);
        assert s == s[..|s| - |rest|] + rest;
        NonSpaceOfSpaces(s[..|s| - |rest|], rest);
        assert r[1..] == CollapseSpaces(rest);
      } else {
        CollapseSpacesKeepsText(s[1..]);
        assert r[1..] == CollapseSpaces(s[1..]);
      }
    }
  }

  /** A leading run of whitespace contributes nothing to `NonSpace`. */
  lemma {:induction false} NonSpaceOfSpaces(w: string, s: string)
    requires AllSpace(w)
    ensures NonSpace(w + s) == NonSpace(s)
  {
    if w != [] {
      assert (w + s)[0] == w[0];
      assert (w + s)[1..] == w[1..] + s;
      assert AllSpace(w[1..]) by {
        forall i | 0 <= i < |w| - 1 ensures IsSpace(w[1..][i]) {
          assert w[1..][i] == w[i + 1];
        }
      }
      assert IsSpace((w + s)[0]);
      assert NonSpace(w + s) == NonSpace(w[1..] + s);
      NonSpaceOfSpaces(w[1..], s);
    } else {
      assert w + s == s;
    }
  }

  // ---------------------------------------------------------------------------
  // Strings already in the shape an operation produces are left unchanged

  lemma StripNoEdge(s: string)
    requires NoEdgeSpace(s)
    ensures Strip(s) == s
  {
    assert TrimStart(s) == s;
    assert TrimEnd(s) == s;
  }

  lemma {:induction false} CollapseSpacesNoDouble(s: string)
    requires NoDoubleSpace(s) && PlainSpacesOnly(s)
    ensures CollapseSpaces(s) == s
    decreases |s|
  {
    if s != [] {
      var t := s[1..];
      assert NoDoubleSpace(t) && PlainSpacesOnly(t) by {
        forall i | 0 <= i < |t| ensures t[i] == s[i + 1] { }
      }
      if IsSpace(s[0]) {
        assert t == [] || !IsSpace(t[0]);
        assert TrimStart(t) == t;
        CollapseSpacesNoDouble(t);
      } else {
        CollapseSpacesNoDouble(t);
      }
    }
  }

  lemma LowerNoUpper(s: string)
    requires NoUpper(s)
    ensures Lower(s) == s
  {
  }

  // ---------------------------------------------------------------------------
  // Stripping ignores surrounding whitespace and commutes with lower-casing

  lemma {:induction false} TrimStartSpaces(w: string, s: string)
    requires AllSpace(w)
    ensures TrimStart(w + s) == TrimStart(s)
  {
    if w == [] {
      assert w + s == s;
    } else {
      assert (w + s)[0] == w[0];
      assert (w + s)[1..] == w[1..] + s;
      assert AllSpace(w[1..]) by {
        forall i | 0 <= i < |w| - 1 ensures IsSpace(w[1..][i]) {
          assert w[1..][i] == w[i + 1];
        }
      }
      TrimStartSpaces(w[1..], s);
    }
  }

  lemma {:induction false} TrimEndSpaces(s: string, w: string)
    requires AllSpace(w)
    ensures TrimEnd(s + w) == TrimEnd(s)
    decreases |w|
  {
    if w == [] {
      assert s + w == s;
    } else {
      var v := w[..|w| - 1];
      assert (s + w)[|s + w| - 1] == w[|w| - 1];
      assert (s + w)[..|s + w| - 1] == s + v;
      assert AllSpace(v) by {
        forall i | 0 <= i < |v| ensures IsSpace(v[i]) {
          assert v[i] == w[i];
        }
      }
      TrimEndSpaces(s, v);
    }
  }

  lemma {:induction false} TrimStartAppend(s: string, w: string)
    requires !AllSpace(s)
    ensures TrimStart(s + w) == TrimStart(s) + w
  {
    assert s != [];
    assert (s + w)[0] == s[0];
    if IsSpace(s[0]) {
      assert (s + w)[1..] == s[1..] + w;
      assert !AllSpace(s[1..]) by {
        var i :| 0 <= i < |s| && !IsSpace(s[i]);
        assert s[1..][i - 1] == s[i];
      }
      TrimStartAppend(s[1..], w);
    }
  }

  lemma TrimStartAllSpace(s: string)
    requires AllSpace(s)
    ensures TrimStart(s) == []
  {
  }

  /** Whitespace around a string does not change what `strip()` returns. */
  lemma StripSurrounded(a: string, s: string, b: string)
    requires AllSpace(a) && AllSpace(b)
    ensures Strip(a + s + b) == Strip(s)
  {
    assert a + s + b == a + (s + b);
    TrimStartSpaces(a, s + b);
    if AllSpace(s) {
      assert AllSpace(s + b) by {
        forall i | 0 <= i < |s + b| ensures IsSpace((s + b)[i]) {
          if i < |s| { assert (s + b)[i] == s[i]; } else { assert (s + b)[i] == b[i - |s|]; }
        }
      }
      TrimStartAllSpace(s + b);
      TrimStartAllSpace(s);
    } else {
      TrimStartAppend(s, b);
      TrimEndSpaces(TrimStart(s), b);
    }
  }

  lemma {:induction false} LowerTrimStart(s: string)
    ensures Lower(TrimStart(s)) == TrimStart(Lower(s))
  {
    if s != [] && IsSpace(s[0]) {
      assert Lower(s)[1..] == Lower(s[1..]);
      LowerTrimStart(s[1..]);
    }
  }

  lemma {:induction false} LowerTrimEnd(s: string)
    ensures Lower(TrimEnd(s)) == TrimEnd(Lower(s))
  {
    if s != [] && IsSpace(s[|s| - 1]) {
      assert Lower(s)[..|s| - 1] == Lower(s[..|s| - 1]);
      LowerTrimEnd(s[..|s| - 1]);
    }
  }

  /** `s.strip().lower() == s.lower().strip()`. */
  lemma LowerStripCommute(s: string)
    ensures Lower(Strip(s)) == Strip(Lower(s))
  {
    LowerTrimStart(s);
    LowerTrimEnd(TrimStart(s));
  }

  // ---------------------------------------------------------------------------
  // str.split() and " ".join(...): collapsing a stripped string joins its words

  /** The longest prefix of `s` without whitespace. */
  function WordPrefix(s: string): (w: string)
    ensures |w| <= |s| && w == s[..|w|]
    ensures forall i :: 0 <= i < |w| ==> !IsSpace(w[i])
    ensures |w| < |s| ==> IsSpace(s[|w|])
    ensures s != [] && !IsSpace(s[0]) ==> w != []
  {
    if s == [] || IsSpace(s[0]) then [] else [s[0]] + WordPrefix(s[1..])
  }

  /** `s.split()`: the maximal runs of non-whitespace characters, in order. */
  function Split(s: string): seq<string>
    decreases |s|
  {
    var t := TrimStart(s);
    if t == [] then []
    else
      var w := WordPrefix(t);
      [w] + Split(t[|w|..])
  }

  /** `" ".join(words)`. */
  function JoinWithSpaces(words: seq<string>): string {
    if words == [] then ""
    else if |words| == 1 then words[0]
    else words[0] + " " + JoinWithSpaces(words[1..])
  }

  lemma {:induction false} TrimEndPrepend(x: string, s: string)
    requires !AllSpace(s)
    ensures TrimEnd(x + s) == x + TrimEnd(s)
    decreases |s|
  {
    assert s != [];
    var last := |s| - 1;
    assert (x + s)[|x + s| - 1] == s[last];
    if IsSpace(s[last]) {
      var v := s[..last];
      assert (x + s)[..|x + s| - 1] == x + v;
      assert !AllSpace(v) by {
        var i :| 0 <= i < |s| && !IsSpace(s[i]);
        assert i < last && v[i] == s[i];
      }
      TrimEndPrepend(x, v);
    }
  }

  lemma {:induction false} CollapseSpacesAfterWord(w: string, s: string)
    requires forall i :: 0 <= i < |w| ==> !IsSpace(w[i])
    ensures CollapseSpaces(w + s) == w + CollapseSpaces(s)
  {
    if w == [] {
      assert w + s == s;
    } else {
      assert (w + s)[0] == w[0];
      assert (w + s)[1..] == w[1..] + s;
      CollapseSpacesAfterWord(w[1..], s);
    }
  }

  lemma {:induction false} TrimStartTrimEnd(s: string)
    ensures TrimStart(TrimEnd(s)) == TrimEnd(TrimStart(s))
    decreases |s|
  {
    if s == [] {
    } else if AllSpace(s) {
      TrimStartAllSpace(s);
      var r := TrimEnd(s);
      TrimEndIsPrefix(s);
      assert AllSpace(r) by {
        forall i | 0 <= i < |r| ensures IsSpace(r[i]) { assert r[i] == s[i]; }
      }
      TrimStartAllSpace(r);
      assert TrimEnd([]) == [];
    } else if IsSpace(s[0]) {
      var tail := s[1..];
      assert !AllSpace(tail) by {
        var i :| 0 <= i < |s| && !IsSpace(s[i]);
        assert i > 0 && tail[i - 1] == s[i];
      }
      assert [s[0]] + tail == s;
      TrimEndPrepend([s[0]], tail);
      var r := TrimEnd(tail);
      assert TrimEnd(s) == [s[0]] + r;
      assert ([s[0]] + r)[0] == s[0] && ([s[0]] + r)[1..] == r;
      assert TrimStart(TrimEnd(s)) == TrimStart(r);
      assert TrimStart(s) == TrimStart(tail);
      TrimStartTrimEnd(tail);
    } else {
      assert TrimStart(s) == s;
      var r := TrimEnd(s);
      TrimEndIsPrefix(s);
      assert r != [] && r[0] == s[0];
      assert TrimStart(r) == r;
    }
  }

  /** Regrouping a concatenation. As a lemma of its own it keeps the sequence
      extensionality it needs out of the proof of `CollapseStripIsJoinedSplit`. */
  lemma ConcatAssociative(a: string, b: string, c: string)
    ensures a + (b + c) == (a + b) + c
  {
  }

  lemma JoinWithSpacesCons(w: string, words: seq<string>)
    requires words != []
    ensures JoinWithSpaces([w] + words) == w + " " + JoinWithSpaces(words)
  {
    var ws := [w] + words;
    assert |ws| > 1 && ws[0] == w && ws[1..] == words;
  }

  /** Collapsing the right-stripped text that starts with whitespace gives a
      space followed by the collapsed stripped text. */
  lemma CollapseSpaceLed(s: string)
    requires s != [] && IsSpace(s[0]) && !AllSpace(s)
    ensures CollapseSpaces(TrimEnd(s)) == [' '] + CollapseSpaces(Strip(s))
  {
    var y := TrimEnd(s);
    TrimEndIsPrefix(s);
    assert y != [] && y[0] == s[0];
    assert CollapseSpaces(y) == [' '] + CollapseSpaces(TrimStart(y[1..]));
    assert TrimStart(y) == TrimStart(y[1..]);
    TrimStartTrimEnd(s);
  }

  /** `re.sub(r'\s+', ' ', s.strip())` is `" ".join(s.split())`. */
  lemma {:induction false} CollapseStripIsJoinedSplit(s: string)
    ensures CollapseSpaces(Strip(s)) == JoinWithSpaces(Split(s))
    decreases |s|
  {
    var t := TrimStart(s);
    if t != [] {
      var w := WordPrefix(t);
      var rest := t[|w|..];
      assert t == w + rest;
      assert Split(s) == [w] + Split(rest);
      assert Strip(s) == TrimEnd(w + rest);
      var t' := TrimStart(rest);
      if t' == [] {
        assert AllSpace(rest);
        assert Split(rest) == [];
        TrimEndSpaces(w, rest);
        assert TrimEnd(w) == w;
        CollapseSpacesNoDouble(w);
        assert JoinWithSpaces([w] + []) == w;
      } else {
        TrimStartIsSuffix(rest);
        assert rest[|rest| - |t'|] == t'[0];
        assert !AllSpace(rest);
        TrimEndPrepend(w, rest);
        var y := TrimEnd(rest);
        CollapseSpacesAfterWord(w, y);
        assert rest != [] && IsSpace(rest[0]);
        CollapseSpaceLed(rest);
        CollapseStripIsJoinedSplit(rest);
        var ws := Split(rest);
        assert ws != [];
        JoinWithSpacesCons(w, ws);
        calc {
          CollapseSpaces(Strip(s));
          CollapseSpaces(w + y);
          w + CollapseSpaces(y);
          w + ([' '] + CollapseSpaces(Strip(rest)));
          w + ([' '] + JoinWithSpaces(ws));
          { ConcatAssociative(w, [' '], JoinWithSpaces(ws)); }
          (w + [' ']) + JoinWithSpaces(ws);
          w + " " + JoinWithSpaces(ws);
        }
      }
    }
  }
}
