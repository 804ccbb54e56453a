/** The Python string primitives the extractor is built from: `str.isspace`
    (which is also what `\s` matches in a `re` pattern), `str.lower`,
    `str.strip`, `str.split(sep)`, `str.split()` and `str.replace`. */
module Text {
  /** Python's `str.isspace` on a single code point. */
  predicate IsSpace(c: char) {
    || ('\t' <= c <= '\r')
    || ('\U{1C}' <= c <= '\U{1F}')
    || c == ' '
    || c == '\U{85}'
    || c == '\U{A0}'
    || c == '\U{1680}'
    || ('\U{2000}' <= c <= '\U{200A}')
    || c == '\U{2028}'
    || c == '\U{2029}'
    || c == '\U{202F}'
    || c == '\U{205F}'
    || c == '\U{3000}'
  }

  predicate AllSpace(s: string) {
    forall i :: 0 <= i < |s| ==> IsSpace(s[i])
  }

  predicate NoSpace(s: string) {
    forall i :: 0 <= i < |s| ==> !IsSpace(s[i])
  }

  /** Neither starts nor ends with whitespace: what `str.strip()` returns. */
  predicate Trimmed(s: string) {
    s == [] || (!IsSpace(s[0]) && !IsSpace(s[|s| - 1]))
  }

  // ---------------------------------------------------------------------
  // Case mapping
  // ---------------------------------------------------------------------

  /** Upper-case letters of ASCII and Latin-1 (this covers Å, Ä and Ö). */
  predicate IsUpper(c: char) {
    ('A' <= c <= 'Z') || ('\U{C0}' <= c <= '\U{DE}' && c != '\U{D7}')
  }

  function LowerChar(c: char): (r: char)
    ensures !IsUpper(r)
    ensures IsSpace(r) <==> IsSpace(c)
    ensures IsUpper(c) || r == c
  {
    if IsUpper(c) then (c as int + 32) as char else c
  }

  /** Python's `str.lower`, restricted to ASCII and Latin-1 letters. */
  function Lower(s: string): (r: string)
    ensures |r| == |s|
    ensures forall i :: 0 <= i < |r| ==> !IsUpper(r[i]) && (IsUpper(s[i]) || r[i] == s[i])
  {
    seq(|s|, i requires 0 <= i < |s| => LowerChar(s[i]))
  }

  /** Lower-casing twice is lower-casing once. */
  lemma LowerIdempotent(s: string)
    ensures Lower(Lower(s)) == Lower(s)
  {
  }

  /** Lower-casing works character by character. */
  lemma LowerConcat(a: string, b: string)
    ensures Lower(a + b) == Lower(a) + Lower(b)
  {
    var l := Lower(a + b);
    var r := Lower(a) + Lower(b);
    forall i | 0 <= i < |l| ensures l[i] == r[i] {
      if i < |a| {
        assert (a + b)[i] == a[i];
      } else {
        assert (a + b)[i] == b[i - |a|];
      }
    }
  }

  /** Text without upper-case letters is left as it is. */
  lemma LowerUnchanged(s: string)
    requires forall i :: 0 <= i < |s| ==> !IsUpper(s[i])
    ensures Lower(s) == s
  {
  }

  // ---------------------------------------------------------------------
  // str.strip()
  // ---------------------------------------------------------------------

  /** Length of the leading whitespace run of `s`. */
  function LeadingSpaces(s: string): (n: nat)
    ensures n <= |s|
    decreases |s|
  {
    if s != [] && IsSpace(s[0]) then 1 + LeadingSpaces(s[1..]) else 0
  }

  /** Length of the trailing whitespace run of `s`. */
  function TrailingSpaces(s: string): (n: nat)
    ensures n <= |s|
    decreases |s|
  {
    if s != [] && IsSpace(s[|s| - 1]) then 1 + TrailingSpaces(s[..|s| - 1]) else 0
  }

  /** The leading run is whitespace and the character after it is not. */
  lemma {:induction false} LeadingSpacesRun(s: string)
    ensures AllSpace(s[..LeadingSpaces(s)])
    ensures LeadingSpaces(s) < |s| ==> !IsSpace(s[LeadingSpaces(s)])
    decreases |s|
  {
    if s != [] && IsSpace(s[0]) {
      LeadingSpacesRun(s[1..]);
      assert s[..LeadingSpaces(s)] == [s[0]] + s[1..][..LeadingSpaces(s[1..])];
    }
  }

  /** The trailing run is whitespace and the character before it is not. */
  lemma {:induction false} TrailingSpacesRun(s: string)
    ensures AllSpace(s[|s| - TrailingSpaces(s)..])
    ensures TrailingSpaces(s) < |s| ==> !IsSpace(s[|s| - 1 - TrailingSpaces(s)])
    decreases |s|
  {
    if s != [] && IsSpace(s[|s| - 1]) {
      var p := s[..|s| - 1];
      TrailingSpacesRun(p);
      var n := TrailingSpaces(p);
      forall i | |s| - 1 - n <= i < |s| - 1 ensures IsSpace(s[i]) {
        assert s[i] == p[|p| - n..][i - (|p| - n)];
      }
      if n + 1 < |s| {
        assert s[|s| - 2 - n] == p[|p| - 1 - n];
      }
    }
  }

  /** One whitespace character followed by a non-whitespace one. */
  lemma LeadingSpacesOne(s: string)
    requires |s| >= 2 && IsSpace(s[0]) && !IsSpace(s[1])
    ensures LeadingSpaces(s) == 1
  {
    assert s[1..][0] == s[1];
  }

  /** Python's `str.lstrip()`. */
  function TrimStart(s: string): (r: string)
    ensures r == [] || !IsSpace(r[0])
  {
    LeadingSpacesRun(s);
    s[LeadingSpaces(s)..]
  }

  /** Python's `str.strip()`. */
  function Trim(s: string): (r: string)
    ensures Trimmed(r)
    ensures |r| <= |s|
  {
    var t := TrimStart(s);
    TrailingSpacesRun(t);
    t[..|t| - TrailingSpaces(t)]
  }

  lemma SliceOfSlice<T>(s: seq<T>, k: int, m: int)
    requires 0 <= k <= |s| && 0 <= m <= |s| - k
    ensures s[k..][..m] == s[k..k + m]
  {
  }

  /** A slice of a prefix, or a prefix of a suffix, is a slice of `s`. */
  lemma Slices<T>(s: seq<T>, n: int, a: int, b: int)
    requires 0 <= a <= b <= n <= |s|
    ensures s[..n][a..b] == s[a..b] && s[a..][..b - a] == s[a..b]
  {
  }

  /** What `strip` returns is the slice of `s` left after removing the
      leading and the trailing whitespace. */
  lemma TrimSlice(s: string)
    ensures LeadingSpaces(s) + |Trim(s)| <= |s|
    ensures Trim(s) == s[LeadingSpaces(s)..LeadingSpaces(s) + |Trim(s)|]
    ensures AllSpace(s[..LeadingSpaces(s)]) && AllSpace(s[LeadingSpaces(s) + |Trim(s)|..])
  {
    TrimSliceText(s);
    TrimSliceSpace(s);
  }

  lemma TrimSliceText(s: string)
    ensures LeadingSpaces(s) + |Trim(s)| <= |s|
    ensures Trim(s) == s[LeadingSpaces(s)..LeadingSpaces(s) + |Trim(s)|]
  {
    var k := LeadingSpaces(s);
    var t := s[k..];
    var m := |t| - TrailingSpaces(t);
    assert Trim(s) == t[..m];
    SliceOfSlice(s, k, m);
  }

  lemma TrimSliceSpace(s: string)
    ensures LeadingSpaces(s) + |Trim(s)| <= |s|
    ensures AllSpace(s[..LeadingSpaces(s)]) && AllSpace(s[LeadingSpaces(s) + |Trim(s)|..])
  {
    var k := LeadingSpaces(s);
    var t := s[k..];
    var m := |t| - TrailingSpaces(t);
    assert |Trim(s)| == m;
    assert AllSpace(s[..k]) by {
      LeadingSpacesRun(s);
    }
    assert AllSpace(s[k..][m..]) by {
      TrailingSpacesRun(t);
    }
    SpaceAfter(s, k, m);
  }

  /** A whitespace tail of `s[k..]` is a whitespace tail of `s`. */
  lemma SpaceAfter(s: string, k: nat, m: nat)
    requires k + m <= |s|
    requires AllSpace(s[k..][m..])
    ensures AllSpace(s[k + m..])
  {
    var u := s[k + m..];
    forall i | 0 <= i < |u|
      ensures IsSpace(u[i])
    {
      assert u[i] == s[k..][m..][i];
    }
  }

  lemma {:induction false} LeadingSpacesPrefix(a: string, t: string)
    requires AllSpace(a)
    requires t == [] || !IsSpace(t[0])
    ensures LeadingSpaces(a + t) == |a|
    decreases |a|
  {
    if a != [] {
      assert (a + t)[1..] == a[1..] + t;
      LeadingSpacesPrefix(a[1..], t);
    } else {
      assert a + t == t;
    }
  }

  /** Text ending in a non-whitespace character bounds the leading run,
      whatever follows it. */
  lemma {:induction false} LeadingSpacesWithin(a: string, t: string)
    requires a != [] && !IsSpace(a[|a| - 1])
    ensures LeadingSpaces(a + t) == LeadingSpaces(a) < |a|
    decreases |a|
  {
    assert (a + t)[0] == a[0];
    if IsSpace(a[0]) {
      assert (a + t)[1..] == a[1..] + t;
      LeadingSpacesWithin(a[1..], t);
    }
  }

  lemma {:induction false} TrailingSpacesSuffix(t: string, b: string)
    requires AllSpace(b)
    requires t == [] || !IsSpace(t[|t| - 1])
    ensures TrailingSpaces(t + b) == |b|
    decreases |b|
  {
    if b != [] {
      assert (t + b)[..|t + b| - 1] == t + b[..|b| - 1];
      TrailingSpacesSuffix(t, b[..|b| - 1]);
    } else {
      assert t + b == t;
    }
  }

  /** Leading whitespace in front of text that starts with something else is
      exactly what `lstrip` removes. */
  lemma TrimStartPrefix(a: string, t: string)
    requires AllSpace(a)
    requires t == [] || !IsSpace(t[0])
    ensures TrimStart(a + t) == t
  {
    LeadingSpacesPrefix(a, t);
    assert (a + t)[|a|..] == t;
  }

  /** `strip` removes exactly the surrounding whitespace and nothing else:
      whatever whitespace surrounds a trimmed string, stripping gives it back. */
  lemma TrimExact(a: string, m: string, b: string)
    requires AllSpace(a) && AllSpace(b) && Trimmed(m)
    ensures Trim(a + m + b) == m
  {
    if m == [] {
      assert a + m + b == (a + b) + [];
      assert AllSpace(a + b);
      TrimStartPrefix(a + b, []);
    } else {
      assert a + m + b == a + (m + b);
      TrimStartPrefix(a, m + b);
      TrailingSpacesSuffix(m, b);
      assert (m + b)[..|m|] == m;
    }
  }

  /** Stripping twice is stripping once. */
  lemma TrimIdempotent(s: string)
    ensures Trim(Trim(s)) == Trim(s)
  {
    var m := Trim(s);
    assert [] + m + [] == m;
    TrimExact([], m, []);
  }

  // ---------------------------------------------------------------------
  // str.split(sep) and its inverse sep.join(parts)
  // ---------------------------------------------------------------------

  /** Python's `s.split(sep)` for a one-character separator: the pieces
      between separators, empty pieces included, always at least one. */
  function Split(s: string, sep: char): (r: seq<string>)
    ensures |r| >= 1
    ensures forall i :: 0 <= i < |r| ==> sep !in r[i]
    ensures forall i, c :: 0 <= i < |r| && c in r[i] ==> c in s
    decreases |s|
  {
    if s == [] then [[]]
    else
      var rest := Split(s[1..], sep);
      assert forall c :: c in s[1..] ==> c in s;
      if s[0] == sep then
        var r := [[]] + rest;
        assert forall i :: 0 < i < |r| ==> r[i] == rest[i - 1];
        r
      else
        var r := [[s[0]] + rest[0]] + rest[1..];
        assert forall i :: 0 < i < |r| ==> r[i] == rest[i];
        r
  }

  /** Python's `sep.join(parts)`. */
  function Join(parts: seq<string>, sep: char): string
  {
    if parts == [] then []
    else if |parts| == 1 then parts[0]
    else parts[0] + [sep] + Join(parts[1..], sep)
  }

  /** Joining the pieces of a split restores the original string. */
  lemma {:induction false} JoinSplit(s: string, sep: char)
    ensures Join(Split(s, sep), sep) == s
    decreases |s|
  {
    if s != [] {
      JoinSplit(s[1..], sep);
      var rest := Split(s[1..], sep);
      if s[0] == sep {
        assert Join([[]] + rest, sep) == [] + [sep] + Join(rest, sep);
      } else if |rest| == 1 {
        assert Split(s, sep) == [[s[0]] + rest[0]];
      } else {
        var head := [s[0]] + rest[0];
        assert ([head] + rest[1..])[1..] == rest[1..];
        assert rest == [rest[0]] + rest[1..];
        assert Join(rest, sep) == rest[0] + [sep] + Join(rest[1..], sep);
      }
    }
  }

  lemma {:induction false} SplitPrefix(a: string, t: string, sep: char)
    requires sep !in a
    ensures Split(a + t, sep) == [a + Split(t, sep)[0]] + Split(t, sep)[1..]
    decreases |a|
  {
    if a != [] {
      assert (a + t)[1..] == a[1..] + t;
      SplitPrefix(a[1..], t, sep);
      var s := a + t;
      var rest := Split(s[1..], sep);
      assert s[0] == a[0] && a[0] != sep;
      assert Split(s, sep) == [[a[0]] + rest[0]] + rest[1..];
      assert rest[0] == a[1..] + Split(t, sep)[0];
      assert rest[1..] == Split(t, sep)[1..];
      assert [a[0]] + (a[1..] + Split(t, sep)[0]) == a + Split(t, sep)[0];
    } else {
      assert a + t == t;
      var r := Split(t, sep);
      assert [] + r[0] == r[0];
      assert r == [r[0]] + r[1..];
    }
  }

  /** A separator splits the text in two: the pieces before it, then the
      pieces after it. */
  lemma {:induction false} SplitAppend(x: string, y: string, sep: char)
    ensures Split(x + [sep] + y, sep) == Split(x, sep) + Split(y, sep)
    decreases |x|
  {
    var s := x + [sep] + y;
    if x == [] {
      assert s == [sep] + y;
      assert s[1..] == y;
      assert Split(s, sep) == [[]] + Split(y, sep);
    } else {
      assert s[0] == x[0];
      assert s[1..] == x[1..] + [sep] + y;
      SplitAppend(x[1..], y, sep);
      SplitAppendStep(x, y, sep, Split(x[1..], sep), Split(y, sep));
    }
  }

  lemma SplitAppendStep(x: string, y: string, sep: char, rx: seq<string>, ry: seq<string>)
    requires x != [] && rx == Split(x[1..], sep) && ry == Split(y, sep)
    requires (x + [sep] + y)[0] == x[0] && (x + [sep] + y)[1..] == x[1..] + [sep] + y
    requires Split(x[1..] + [sep] + y, sep) == rx + ry
    ensures Split(x + [sep] + y, sep) == Split(x, sep) + ry
  {
    var s := x + [sep] + y;
    if x[0] == sep {
      assert Split(s, sep) == [[]] + (rx + ry);
      assert Split(x, sep) == [[]] + rx;
      AppendAssoc([[]], rx, ry);
    } else {
      var h := [x[0]] + rx[0];
      assert Split(s, sep) == [h] + (rx[1..] + ry) by {
        var rest := rx + ry;
        assert rest[0] == rx[0];
        assert rest[1..] == rx[1..] + ry;
      }
      assert Split(x, sep) == [h] + rx[1..];
      AppendAssoc([h], rx[1..], ry);
    }
  }

  /** Text without the separator is one piece. */
  lemma SplitNone(s: string, sep: char)
    requires sep !in s
    ensures Split(s, sep) == [s]
  {
    SplitPrefix(s, [], sep);
    assert s + [] == s;
  }

  /** Splitting a join of separator-free pieces gives the pieces back. */
  lemma {:induction false} SplitJoin(parts: seq<string>, sep: char)
    requires |parts| >= 1
    requires forall i :: 0 <= i < |parts| ==> sep !in parts[i]
    ensures Split(Join(parts, sep), sep) == parts
    decreases |parts|
  {
    if |parts| == 1 {
      SplitPrefix(parts[0], [], sep);
      assert parts[0] + [] == parts[0];
    } else {
      var tail := Join(parts[1..], sep);
      SplitJoin(parts[1..], sep);
      assert Split([sep] + tail, sep) == [[]] + parts[1..];
      assert Join(parts, sep) == parts[0] + ([sep] + tail);
      SplitPrefix(parts[0], [sep] + tail, sep);
      assert parts[0] + [] == parts[0];
    }
  }

  // ---------------------------------------------------------------------
  // str.replace(old, new)
  // ---------------------------------------------------------------------

  /** Python's `s.replace(pat, rep)` for a non-empty pattern: occurrences are
      found left to right and do not overlap. */
  function Replace(s: string, pat: string, rep: string): (r: string)
    requires pat != []
    ensures forall c :: c in r ==> c in s || c in rep
    decreases |s|
  {
    if s == [] then []
    else if pat <= s then rep + Replace(s[|pat|..], pat, rep)
    else [s[0]] + Replace(s[1..], pat, rep)
  }

  /** Text that cannot start an occurrence is copied unchanged. */
  lemma {:induction false} ReplaceCopies(a: string, t: string, pat: string, rep: string)
    requires pat != [] && pat[0] !in a
    ensures Replace(a + t, pat, rep) == a + Replace(t, pat, rep)
    decreases |a|
  {
    if a != [] {
      assert (a + t)[0] == a[0];
      assert !(pat <= a + t);
      assert (a + t)[1..] == a[1..] + t;
      ReplaceCopies(a[1..], t, pat, rep);
      assert [a[0]] + (a[1..] + Replace(t, pat, rep)) == a + Replace(t, pat, rep);
    } else {
      assert a + t == t;
    }
  }

  /** An occurrence at the front is replaced. */
  lemma ReplaceFront(t: string, pat: string, rep: string)
    requires pat != []
    ensures Replace(pat + t, pat, rep) == rep + Replace(t, pat, rep)
  {
    assert pat <= pat + t;
    assert (pat + t)[|pat|..] == t;
  }

  lemma ConsAppend<T>(a: seq<T>, b: seq<T>)
    requires a != []
    ensures (a + b)[0] == a[0] && (a + b)[1..] == a[1..] + b
  {
  }

  lemma AppendAssoc<T>(a: seq<T>, b: seq<T>, c: seq<T>)
    ensures a + (b + c) == (a + b) + c
  {
  }

  lemma DropFront<T>(a: seq<T>, b: seq<T>, c: seq<T>)
    ensures (a + b + c)[|a|..] == b + c
  {
  }

  /** Python's `pat in s`. */
  predicate Contains(s: string, pat: string) {
    exists k :: 0 <= k <= |s| && pat <= s[k..]
  }

  /** Text without an occurrence is copied unchanged. */
  lemma {:induction false} ReplaceNone(s: string, pat: string, rep: string)
    requires pat != [] && !Contains(s, pat)
    ensures Replace(s, pat, rep) == s
    decreases |s|
  {
    if s != [] {
      assert s[0..] == s;
      assert !Contains(s[1..], pat) by {
        forall k | 0 <= k <= |s[1..]| ensures !(pat <= s[1..][k..]) {
          assert s[1..][k..] == s[k + 1..];
        }
      }
      ReplaceNone(s[1..], pat, rep);
    }
  }

  /** An occurrence never spans a character the pattern does not hold, so
      text can be replaced on either side of one separately. */
  lemma {:induction false} ReplaceBarrier(a: string, t: string, pat: string, rep: string)
    requires pat != [] && t != [] && t[0] !in pat
    ensures Replace(a + t, pat, rep) == Replace(a, pat, rep) + Replace(t, pat, rep)
    decreases |a|
  {
    var s := a + t;
    if a == [] {
      assert s == t;
    } else if |pat| <= |a| && pat <= a {
      assert s[..|pat|] == a[..|pat|];
      assert s[|pat|..] == a[|pat|..] + t;
      ReplaceBarrier(a[|pat|..], t, pat, rep);
      var u, v := Replace(a[|pat|..], pat, rep), Replace(t, pat, rep);
      assert Replace(s, pat, rep) == rep + (u + v);
      assert Replace(a, pat, rep) == rep + u;
      AppendAssoc(rep, u, v);
    } else {
      assert !(pat <= s) by {
        assert |pat| > |a| ==> pat[|a|] != s[|a|];
        assert |pat| <= |a| ==> s[..|pat|] == a[..|pat|];
      }
      assert s[1..] == a[1..] + t;
      ReplaceBarrier(a[1..], t, pat, rep);
      var u, v := Replace(a[1..], pat, rep), Replace(t, pat, rep);
      assert Replace(s, pat, rep) == [a[0]] + (u + v);
      assert Replace(a, pat, rep) == [a[0]] + u;
      AppendAssoc([a[0]], u, v);
    }
  }

  /** A character that does not start an occurrence is copied. */
  lemma ReplaceSkip(c: char, t: string, pat: string, rep: string)
    requires pat != [] && !(pat <= [c] + t)
    ensures Replace([c] + t, pat, rep) == [c] + Replace(t, pat, rep)
  {
    assert ([c] + t)[1..] == t;
  }

  // ---------------------------------------------------------------------
  // str.split() with no separator
  // ---------------------------------------------------------------------

  /** Length of the leading run of non-whitespace characters. */
  function WordLength(s: string): (n: nat)
    ensures n <= |s|
    ensures NoSpace(s[..n])
    ensures n == |s| || IsSpace(s[n])
    ensures s != [] && !IsSpace(s[0]) ==> n >= 1
    decreases |s|
  {
    if s == [] || IsSpace(s[0]) then 0
    else
      var n := 1 + WordLength(s[1..]);
      assert s[..n] == [s[0]] + s[1..][..n - 1];
      n
  }

  /** A token of `str.split()`: non-empty and free of whitespace. */
  predicate IsWord(w: string) {
    w != [] && NoSpace(w)
  }

  /** Python's `s.split()`: the maximal runs of non-whitespace characters,
      in order; leading, trailing and repeated whitespace produce nothing. */
  function Words(s: string): (r: seq<string>)
    ensures forall i :: 0 <= i < |r| ==> IsWord(r[i])
    decreases |s|
  {
    var t := TrimStart(s);
    if t == [] then []
    else
      var n := WordLength(t);
      var w := t[..n];
      assert IsWord(w);
      var rest := Words(t[n..]);
      var r := [w] + rest;
      assert forall i :: 0 < i < |r| ==> r[i] == rest[i - 1];
      r
  }

  /** A word at the front of the text is the first token. */
  lemma WordsCons(w: string, t: string)
    requires IsWord(w)
    requires t == [] || IsSpace(t[0])
    ensures Words(w + t) == [w] + Words(t)
  {
    var s := w + t;
    TrimStartPrefix([], s);
    assert [] + s == s;
    WordLengthOf(w, t);
    assert s[..|w|] == w;
    assert s[|w|..] == t;
    if t != [] {
      assert LeadingSpaces(t) == 1 + LeadingSpaces(t[1..]);
      assert TrimStart(t) == TrimStart(t[1..]);
    }
  }

  /** Leading whitespace produces no token. */
  lemma WordsSpace(t: string)
    ensures Words([' '] + t) == Words(t)
  {
    assert ([' '] + t)[1..] == t;
    assert LeadingSpaces([' '] + t) == 1 + LeadingSpaces(t);
    assert TrimStart([' '] + t) == TrimStart(t);
  }

  /** Joining non-empty whitespace-free words with single spaces and
      splitting on whitespace gives the words back. */
  lemma {:induction false} WordsJoin(ws: seq<string>)
    requires forall i :: 0 <= i < |ws| ==> IsWord(ws[i])
    ensures Words(Join(ws, ' ')) == ws
    decreases |ws|
  {
    if ws == [] {
    } else if |ws| == 1 {
      WordsCons(ws[0], []);
      assert ws[0] + [] == ws[0];
    } else {
      var tail := Join(ws[1..], ' ');
      assert Join(ws, ' ') == ws[0] + ([' '] + tail);
      WordsCons(ws[0], [' '] + tail);
      WordsSpace(tail);
      WordsJoin(ws[1..]);
    }
  }

  lemma {:induction false} WordLengthOf(w: string, t: string)
    requires NoSpace(w)
    requires t == [] || IsSpace(t[0])
    ensures WordLength(w + t) == |w|
    decreases |w|
  {
    if w != [] {
      ConsAppend(w, t);
      assert !IsSpace(w[0]);
      WordLengthOf(w[1..], t);
    } else {
      assert w + t == t;
    }
  }
}
