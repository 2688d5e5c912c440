/**
 * The string operations the scraper uses on extracted text: Python's
 * `str.strip()`, `str.replace(c, "")`, `sep.join(parts)`, a substring test
 * (`t in s`) and `re.sub(r"\s+", " ", s, flags=re.UNICODE)`.
 */
module Text {

  /** Python's `str.isspace()`, which is also what `\s` matches in a str pattern. */
  predicate IsSpace(c: char) {
    c == ' ' || ('\t' <= c <= '\r') || ('\U{1C}' <= c <= '\U{1F}')
    || c == '\U{85}' || c == '\U{A0}' || c == '\U{1680}'
    || ('\U{2000}' <= c <= '\U{200A}') || c == '\U{2028}' || c == '\U{2029}'
    || c == '\U{202F}' || c == '\U{205F}' || c == '\U{3000}'
  }

  /** The characters of `s` that are not whitespace, in order. */
  function NonSpace(s: string): string {
    if s == [] then [] else (if IsSpace(s[0]) then [] else [s[0]]) + NonSpace(s[1..])
  }

  // ---------------------------------------------------------------------
  // str.strip()

  /** Drops the whitespace run at the start of `s`. */
  function TrimStart(s: string): (r: string)
    ensures |r| <= |s|
  {
    if s != [] && IsSpace(s[0]) then TrimStart(s[1..]) else s
  }

  /** Drops the whitespace run at the end of `s`. */
  function TrimEnd(s: string): (r: string)
    ensures |r| <= |s|
  {
    if s != [] && IsSpace(s[|s| - 1]) then TrimEnd(s[..|s| - 1]) else s
  }

  /** `TrimStart` keeps a suffix that does not start with whitespace, and drops only whitespace. */
  lemma {:induction false} TrimStartSpec(s: string)
    ensures var r := TrimStart(s);
      && r == s[|s| - |r|..]
      && (r != [] ==> !IsSpace(r[0]))
      && (forall i :: 0 <= i < |s| - |r| ==> IsSpace(s[i]))
  {
    if s != [] && IsSpace(s[0]) {
      TrimStartSpec(s[1..]);
      var r := TrimStart(s);
      forall i | 0 < i < |s| - |r| ensures IsSpace(s[i]) {
        assert s[i] == s[1..][i - 1];
      }
    }
  }

  /** `TrimEnd` keeps a prefix that does not end with whitespace, and drops only whitespace. */
  lemma {:induction false} TrimEndSpec(s: string)
    ensures var r := TrimEnd(s);
      && r == s[..|r|]
      && (r != [] ==> !IsSpace(r[|r| - 1]))
      && (forall i :: |r| <= i < |s| ==> IsSpace(s[i]))
  {
    if s != [] && IsSpace(s[|s| - 1]) {
      TrimEndSpec(s[..|s| - 1]);
      var r := TrimEnd(s);
      forall i | |r| <= i < |s| - 1 ensures IsSpace(s[i]) {
        assert s[i] == s[..|s| - 1][i];
      }
    }
  }

  /** Python's `s.strip()`: removes leading and trailing whitespace. */
  function Strip(s: string): string {
    TrimEnd(TrimStart(s))
  }

  /** The result of `Strip` is the slice of `s` that starts after its leading
      whitespace, with no whitespace at either end; everything cut away, on
      either side, is whitespace. */
  lemma StripSlice(s: string)
    ensures var lo := |s| - |TrimStart(s)|;
      lo + |Strip(s)| <= |s| && Strip(s) == s[lo..lo + |Strip(s)|]
    ensures Strip(s) != [] ==> !IsSpace(Strip(s)[0]) && !IsSpace(Strip(s)[|Strip(s)| - 1])
    ensures var lo := |s| - |TrimStart(s)|;
      && (forall i :: 0 <= i < lo ==> IsSpace(s[i]))
      && (forall i :: lo + |Strip(s)| <= i < |s| ==> IsSpace(s[i]))
  {
    var t := TrimStart(s);
    var r := TrimEnd(t);
    var lo := |s| - |t|;
    TrimStartSpec(s);
    TrimEndSpec(t);
    assert r == s[lo..lo + |r|];
    if r != [] {
      assert r[0] == t[0];
    }
    forall i | lo + |r| <= i < |s| ensures IsSpace(s[i]) {
      assert s[i] == t[i - lo];
    }
  }

  /** Stripping twice is the same as stripping once. */
  lemma StripIdempotent(s: string)
    ensures Strip(Strip(s)) == Strip(s)
  {
    var t := TrimStart(s);
    var r := Strip(s);
    TrimStartSpec(s);
    TrimEndSpec(t);
    if r != [] {
      assert r[0] == t[0];
      assert TrimStart(r) == r;
      TrimEndSpec(r);
    } else {
      assert TrimStart(r) == r;
    }
  }

  // ---------------------------------------------------------------------
  // str.replace(c, "")

  /** `s.replace(c, "")` for a one-character `c`. */
  function RemoveChar(s: string, c: char): (r: string)
    ensures |r| <= |s| && c !in r
    ensures forall x :: x in r ==> x in s
  {
    if s == [] then [] else (if s[0] == c then [] else [s[0]]) + RemoveChar(s[1..], c)
  }

  /** Every other character of `s` is kept, and none is added. */
  lemma {:induction false} RemoveCharKeeps(s: string, c: char, x: char)
    requires x != c
    ensures x in RemoveChar(s, c) <==> x in s
  {
    if s != [] {
      RemoveCharKeeps(s[1..], c, x);
      assert s == [s[0]] + s[1..];
    }
  }

  /** Removing a character that is absent changes nothing. */
  lemma {:induction false} RemoveCharAbsent(s: string, c: char)
    requires c !in s
    ensures RemoveChar(s, c) == s
  {
    if s != [] {
      RemoveCharAbsent(s[1..], c);
    }
  }

  /** Every other character keeps its number of occurrences; `c` has none left. */
  lemma {:induction false} RemoveCharCounts(s: string, c: char)
    ensures multiset(RemoveChar(s, c)) == multiset(s)[c := 0]
  {
    if s != [] {
      var t := s[1..];
      RemoveCharCounts(t, c);
      assert s == [s[0]] + t;
      var m := multiset(s);
      assert m == multiset([s[0]]) + multiset(t);
      if s[0] == c {
        assert RemoveChar(s, c) == RemoveChar(t, c);
        assert m[c := 0] == multiset(t)[c := 0];
      } else {
        assert RemoveChar(s, c) == [s[0]] + RemoveChar(t, c);
        assert m[c := 0] == multiset([s[0]]) + multiset(t)[c := 0];
      }
    }
  }

  /** Removal works on each part of a concatenation independently, so the
      kept characters stay in their order. */
  lemma {:induction false} RemoveCharConcat(a: string, b: string, c: char)
    ensures RemoveChar(a + b, c) == RemoveChar(a, c) + RemoveChar(b, c)
  {
    if a != [] {
      assert (a + b)[1..] == a[1..] + b;
      RemoveCharConcat(a[1..], b, c);
    } else {
      assert a + b == b;
    }
  }

  // ---------------------------------------------------------------------
  // sep.join(parts)

  /** `sep.join(parts)`. */
  function Join(parts: seq<string>, sep: string): string {
    if parts == [] then []
    else if |parts| == 1 then parts[0]
    else parts[0] + sep + Join(parts[1..], sep)
  }

  function TotalLength(parts: seq<string>): nat {
    if parts == [] then 0 else |parts[0]| + TotalLength(parts[1..])
  }

  /** The joined string holds every part and one separator between each two. */
  lemma {:induction false} JoinLength(parts: seq<string>, sep: string)
    requires parts != []
    ensures |Join(parts, sep)| == TotalLength(parts) + (|parts| - 1) * |sep|
  {
    if |parts| > 1 {
      JoinLength(parts[1..], sep);
    }
  }

  /** Python's `s.split(sep)` for a non-empty separator: the pieces between
      the occurrences of `sep`, found from the left. */
  function SplitOn(s: string, sep: string): (r: seq<string>)
    requires sep != []
    ensures r != []
    decreases |s|
  {
    if |sep| <= |s| && s[..|sep|] == sep then [[]] + SplitOn(s[|sep|..], sep)
    else if s == [] then [[]]
    else var rest := SplitOn(s[1..], sep); [[s[0]] + rest[0]] + rest[1..]
  }

  /** Joining with a separator whose first character no part contains is
      undone by splitting on that separator. */
  lemma {:induction false} SplitJoin(parts: seq<string>, sep: string)
    requires parts != [] && sep != []
    requires forall i :: 0 <= i < |parts| ==> sep[0] !in parts[i]
    ensures SplitOn(Join(parts, sep), sep) == parts
  {
    if |parts| == 1 {
      SplitNoSep(parts[0], sep);
    } else {
      SplitJoin(parts[1..], sep);
      SplitPrefix(parts[0], sep, Join(parts[1..], sep));
      assert Join(parts, sep) == parts[0] + (sep + Join(parts[1..], sep));
    }
  }

  lemma {:induction false} SplitNoSep(s: string, sep: string)
    requires sep != [] && sep[0] !in s
    ensures SplitOn(s, sep) == [s]
  {
    if s != [] {
      assert s[0] in s;
      assert s[0] != sep[0];
      SplitNoSep(s[1..], sep);
      assert [s[0]] + s[1..] == s;
    }
  }

  lemma {:induction false} SplitPrefix(w: string, sep: string, t: string)
    requires sep != [] && sep[0] !in w
    ensures SplitOn(w + (sep + t), sep) == [w] + SplitOn(t, sep)
  {
    var s := w + (sep + t);
    if w == [] {
      assert s == sep + t;
      assert s[..|sep|] == sep;
      assert s[|sep|..] == t;
    } else {
      assert s[0] == w[0] && w[0] in w;
      assert s[1..] == w[1..] + (sep + t);
      SplitPrefix(w[1..], sep, t);
      assert [w[0]] + w[1..] == w;
    }
  }

  // ---------------------------------------------------------------------
  // substring test

  /** Python's `t in s` for strings. */
  predicate Contains(s: string, t: string) {
    (|t| <= |s| && s[..|t|] == t) || (s != [] && Contains(s[1..], t))
  }

  // ---------------------------------------------------------------------
  // re.sub(r"\s+", " ", s)

  /** `re.sub(r"\s+", " ", s)`: every maximal whitespace run becomes one space. */
  function CollapseWhitespace(s: string): string
    decreases |s|
  {
    if s == [] then []
    else if IsSpace(s[0]) then " " + CollapseWhitespace(TrimStart(s[1..]))
    else [s[0]] + CollapseWhitespace(s[1..])
  }

  /** A string is normalised when its only whitespace is single spaces. */
  predicate Normalised(s: string) {
    (forall i :: 0 <= i < |s| && IsSpace(s[i]) ==> s[i] == ' ')
    && (forall i :: 0 <= i < |s| - 1 ==> !(IsSpace(s[i]) && IsSpace(s[i + 1])))
  }

  /** A run of whitespace alone collapses to one space. */
  lemma {:induction false} CollapseRun(s: string)
    requires s != [] && forall i :: 0 <= i < |s| ==> IsSpace(s[i])
    ensures CollapseWhitespace(s) == " "
  {
    TrimStartSpec(s[1..]);
    assert TrimStart(s[1..]) == [];
  }

  /** A run cannot reach across a non-space character: collapsing works on
      each side of one independently. Together with `CollapseRun` this
      determines the result for every input. */
  lemma {:induction false} CollapseSplit(a: string, c: char, b: string)
    requires !IsSpace(c)
    ensures CollapseWhitespace(a + [c] + b)
         == CollapseWhitespace(a) + [c] + CollapseWhitespace(b)
    decreases |a|
  {
    var s := a + [c] + b;
    if a == [] {
      assert s == [c] + b;
      assert s[1..] == b;
    } else if IsSpace(a[0]) {
      assert s[1..] == a[1..] + [c] + b;
      TrimStartBefore(a[1..], c, b);
      var d := TrimStart(a[1..]);
      assert TrimStart(s[1..]) == d + [c] + b;
      CollapseSplit(d, c, b);
    } else {
      assert s[1..] == a[1..] + [c] + b;
      CollapseSplit(a[1..], c, b);
    }
  }

  lemma {:induction false} TrimStartBefore(x: string, c: char, b: string)
    requires !IsSpace(c)
    ensures TrimStart(x + [c] + b) == TrimStart(x) + [c] + b
  {
    if x != [] {
      assert (x + [c] + b)[1..] == x[1..] + [c] + b;
      if IsSpace(x[0]) {
        TrimStartBefore(x[1..], c, b);
      }
    } else {
      assert x + [c] + b == [c] + b;
    }
  }

  /** Collapsing leaves single spaces only, never two whitespace characters in a row. */
  lemma {:induction false} CollapseIsNormalised(s: string)
    ensures Normalised(CollapseWhitespace(s))
    decreases |s|
  {
    var r := CollapseWhitespace(s);
    if s == [] {
    } else if IsSpace(s[0]) {
      var d := TrimStart(s[1..]);
      TrimStartSpec(s[1..]);
      CollapseIsNormalised(d);
      CollapseStart(d);
      var rd := CollapseWhitespace(d);
      assert r == [' '] + rd;
      forall i | 0 <= i < |r| && IsSpace(r[i]) ensures r[i] == ' ' {
        if i > 0 { assert r[i] == rd[i - 1]; }
      }
      forall i | 0 <= i < |r| - 1 ensures !(IsSpace(r[i]) && IsSpace(r[i + 1])) {
        if i > 0 { assert r[i] == rd[i - 1] && r[i + 1] == rd[i]; }
        else { assert r[1] == rd[0]; }
      }
    } else {
      CollapseIsNormalised(s[1..]);
      var rt := CollapseWhitespace(s[1..]);
      assert r == [s[0]] + rt;
      forall i | 0 <= i < |r| && IsSpace(r[i]) ensures r[i] == ' ' {
        if i > 0 { assert r[i] == rt[i - 1]; }
      }
      forall i | 0 <= i < |r| - 1 ensures !(IsSpace(r[i]) && IsSpace(r[i + 1])) {
        if i > 0 { assert r[i] == rt[i - 1] && r[i + 1] == rt[i]; }
      }
    }
  }

  /** The result is empty exactly when the input is, and starts with a space
      exactly when the input starts with whitespace. */
  lemma CollapseStart(s: string)
    ensures var r := CollapseWhitespace(s);
      (r == [] <==> s == []) && (s != [] ==> (IsSpace(r[0]) <==> IsSpace(s[0])))
  {
  }

  /** Collapsing keeps every non-space character, in order, and never lengthens. */
  lemma {:induction false} CollapseKeepsText(s: string)
    ensures NonSpace(CollapseWhitespace(s)) == NonSpace(s)
    ensures |CollapseWhitespace(s)| <= |s|
    decreases |s|
  {
    var r := CollapseWhitespace(s);
    if s == [] {
    } else if IsSpace(s[0]) {
      var d := TrimStart(s[1..]);
      TrimStartSpec(s[1..]);
      CollapseKeepsText(d);
      NonSpaceOfRun(s[1..], |s[1..]| - |d|);
      assert NonSpace(s) == NonSpace(s[1..]);
      NonSpaceSingleSpace(CollapseWhitespace(d));
    } else {
      CollapseKeepsText(s[1..]);
      var rt := CollapseWhitespace(s[1..]);
      assert r == [s[0]] + rt;
      assert r[1..] == rt;
    }
  }

  lemma NonSpaceSingleSpace(t: string)
    ensures NonSpace(" " + t) == NonSpace(t)
  {
    assert (" " + t)[1..] == t;
  }

  lemma {:induction false} NonSpaceOfRun(s: string, k: nat)
    requires k <= |s| && forall i :: 0 <= i < k ==> IsSpace(s[i])
    ensures NonSpace(s) == NonSpace(s[k..])
  {
    if k > 0 {
      NonSpaceOfRun(s[1..], k - 1);
      assert s[1..][k - 1..] == s[k..];
    }
  }

  /** A normalised string is left as it is, so collapsing twice is collapsing once. */
  lemma {:induction false} CollapseNormalised(s: string)
    requires Normalised(s)
    ensures CollapseWhitespace(s) == s
    decreases |s|
  {
    if s != [] {
      var t := s[1..];
      assert Normalised(t) by {
        forall i | 0 <= i < |t| - 1 ensures !(IsSpace(t[i]) && IsSpace(t[i + 1])) {
          assert t[i] == s[i + 1] && t[i + 1] == s[i + 2];
        }
        forall i | 0 <= i < |t| && IsSpace(t[i]) ensures t[i] == ' ' {
          assert t[i] == s[i + 1];
        }
      }
      if IsSpace(s[0]) {
        assert t != [] ==> !IsSpace(t[0]) by {
          if t != [] { assert t[0] == s[1]; }
        }
        assert TrimStart(t) == t;
      }
      CollapseNormalised(t);
    }
  }

  lemma CollapseIdempotent(s: string)
    ensures CollapseWhitespace(CollapseWhitespace(s)) == CollapseWhitespace(s)
  {
    CollapseIsNormalised(s);
    CollapseNormalised(CollapseWhitespace(s));
  }
}
