/** Turning a names cell into a list of names (fetch.py, the two list-building
    branches of `parse_tables`): replace " och " by a comma, split on commas,
    optionally remove parenthetical annotations with the pattern
    `\s*\([^)]*\)`, strip, and keep the non-empty results. */
module Names {
  import opened Wrappers
  import Text

  /** The Swedish conjunction as it appears between two names. */
  const Conjunction: string := " och "

  /** No '(' is followed, anywhere later, by a ')'. */
  predicate NoParenPair(t: string) {
    forall i, j :: 0 <= i < j < |t| && t[i] == '(' ==> t[j] != ')'
  }

  /** Position of the first `c` in `s`. */
  function IndexOf(s: string, c: char): (r: Option<nat>)
    ensures r.Some? ==> r.value < |s| && s[r.value] == c && c !in s[..r.value]
    ensures r.None? <==> c !in s
  {
    if s == [] then None
    else if s[0] == c then Some(0)
    else match IndexOf(s[1..], c)
      case None => None
      case Some(k) =>
        assert s[..k + 1] == [s[0]] + s[1..][..k];
        Some(k + 1)
  }

  /** `IndexOf` finds the first occurrence. */
  lemma IndexOfFirst(s: string, c: char, i: nat)
    requires i < |s| && s[i] == c && c !in s[..i]
    ensures IndexOf(s, c) == Some(i)
  {
    var r := IndexOf(s, c);
    assert s[..i + 1][i] == c;
    assert r.Some?;
    assert forall k :: 0 <= k < i ==> s[..i][k] == s[k];
    assert forall k :: 0 <= k < |s| && s[k] == c ==> k >= i;
    assert r.value < |s| && s[r.value] == c;
    assert forall k :: 0 <= k < r.value ==> s[..r.value][k] == s[k];
  }

  // ---------------------------------------------------------------------
  // re.sub(r"\s*\([^)]*\)", "", f)
  // ---------------------------------------------------------------------

  /** Length of the match of `\s*\([^)]*\)` at the start of `s`, if there is
      one: the whole whitespace run, a '(' and everything up to and including
      the first ')' after it. Backtracking into the whitespace run cannot
      help, because a whitespace character is never '('. */
  function ParenMatch(s: string): (r: Option<nat>)
    ensures r.Some? ==> 0 < r.value <= |s|
  {
    var w := Text.LeadingSpaces(s);
    if w < |s| && s[w] == '(' then
      match IndexOf(s[w + 1..], ')')
      case Some(j) => Some(w + j + 2)
      case None => None
    else None
  }

  /** `p` as a whole matches `\s*\([^)]*\)`: a run of whitespace, '(',
      characters other than ')', and ')'. */
  predicate IsParenGroup(p: string) {
    exists w :: 0 <= w && w + 2 <= |p| && Text.AllSpace(p[..w]) && p[w] == '('
      && p[|p| - 1] == ')' && ')' !in p[w + 1..|p| - 1]
  }

  /** `ParenMatch` reports `n` exactly when the first `n` characters of `s`
      match the pattern; so it reports `None` exactly when no prefix does,
      and a prefix that matches is the only one. */
  lemma ParenMatchIff(s: string, n: nat)
    requires n <= |s|
    ensures ParenMatch(s) == Some(n) <==> IsParenGroup(s[..n])
  {
    if ParenMatch(s) == Some(n) {
      ParenMatchSound(s);
    }
    if IsParenGroup(s[..n]) {
      ParenMatchComplete(s, n);
    }
  }

  lemma ParenMatchSound(s: string)
    requires ParenMatch(s).Some?
    ensures IsParenGroup(s[..ParenMatch(s).value])
  {
    var w, t, j := ParenMatchParts(s);
    assert ParenMatch(s).value == w + j + 2;
    GroupOf(s, w, t, j);
  }

  /** The pieces of a match: a whitespace run of length `w`, the text `t`
      after the '(', and the offset `j` of the first ')' in it. */
  lemma ParenMatchParts(s: string) returns (w: nat, t: string, j: nat)
    requires ParenMatch(s).Some?
    ensures w < |s| && Text.AllSpace(s[..w]) && s[w] == '(' && t == s[w + 1..]
    ensures IndexOf(t, ')') == Some(j) && ParenMatch(s) == Some(w + j + 2)
  {
    w := Text.LeadingSpaces(s);
    Text.LeadingSpacesRun(s);
    t := s[w + 1..];
    j := IndexOf(t, ')').value;
  }

  lemma GroupOf(s: string, w: nat, t: string, j: nat)
    requires w < |s| && Text.AllSpace(s[..w]) && s[w] == '(' && t == s[w + 1..]
    requires j < |t| && t[j] == ')' && ')' !in t[..j]
    ensures IsParenGroup(s[..w + j + 2])
  {
    var n := w + j + 2;
    var p := s[..n];
    Text.Slices(s, n, 0, w);
    Text.Slices(s, n, w + 1, n - 1);
    Text.Slices(s, |s|, w + 1, n - 1);
    assert p[n - 1] == t[j];
    GroupWitness(p, w);
  }

  lemma GroupWitness(p: string, w: nat)
    requires w + 2 <= |p| && Text.AllSpace(p[..w]) && p[w] == '('
    requires p[|p| - 1] == ')' && ')' !in p[w + 1..|p| - 1]
    ensures IsParenGroup(p)
  {
  }

  lemma ParenMatchComplete(s: string, n: nat)
    requires n <= |s| && IsParenGroup(s[..n])
    ensures ParenMatch(s) == Some(n)
  {
    var w := GroupStart(s, n);
    ParenMatchAt(s, w, s[w + 1..], n - w - 2);
  }

  /** Where the '(' of a matching prefix stands: after the leading run. */
  lemma GroupStart(s: string, n: nat) returns (w: nat)
    requires n <= |s| && IsParenGroup(s[..n])
    ensures w + 2 <= n && w == Text.LeadingSpaces(s) && s[w] == '('
    ensures IndexOf(s[w + 1..], ')') == Some(n - w - 2)
  {
    var p := s[..n];
    w :| 0 <= w && w + 2 <= |p| && Text.AllSpace(p[..w]) && p[w] == '('
      && p[|p| - 1] == ')' && ')' !in p[w + 1..|p| - 1];
    Text.Slices(s, n, 0, w);
    Text.Slices(s, n, w + 1, n - 1);
    ClosingAt(s, w, n);
    WhitespaceThenParen(s, w);
  }

  /** After the leading run and a '(', the first ')' is at `n - 1`. */
  lemma ClosingAt(s: string, w: nat, n: nat)
    requires w + 2 <= n <= |s| && s[n - 1] == ')' && ')' !in s[w + 1..n - 1]
    ensures IndexOf(s[w + 1..], ')') == Some(n - w - 2)
  {
    var t := s[w + 1..];
    var j := n - w - 2;
    Text.Slices(s, |s|, w + 1, n - 1);
    assert t[j] == ')';
    IndexOfFirst(t, ')', j);
  }

  /** Whitespace followed by '(' is exactly the leading whitespace run. */
  lemma WhitespaceThenParen(s: string, w: nat)
    requires w < |s| && Text.AllSpace(s[..w]) && s[w] == '('
    ensures Text.LeadingSpaces(s) == w
  {
    assert s == s[..w] + s[w..];
    assert s[w..][0] == '(';
    Text.LeadingSpacesPrefix(s[..w], s[w..]);
  }

  /** The match found after the leading whitespace run `w` and the first ')'
      at offset `j` past the '('. */
  lemma ParenMatchAt(s: string, w: nat, t: string, j: nat)
    requires w == Text.LeadingSpaces(s) && w < |s| && s[w] == '(' && t == s[w + 1..]
    requires IndexOf(t, ')') == Some(j)
    ensures ParenMatch(s) == Some(w + j + 2)
  {
  }

  /** `re.sub` with an empty replacement: scanning left to right, every
      match is deleted and scanning resumes after it; a position where the
      pattern does not match is copied. */
  function StripParens(s: string): (r: string)
    ensures |r| <= |s|
    ensures forall c :: c in r ==> c in s
    decreases |s|
  {
    if s == [] then []
    else match ParenMatch(s)
      case Some(n) =>
        var r := StripParens(s[n..]);
        assert forall c :: c in s[n..] ==> c in s;
        r
      case None =>
        var r := StripParens(s[1..]);
        assert forall c :: c in s[1..] ==> c in s;
        [s[0]] + r
  }

  /** After stripping, no '(' is followed later by a ')'. */
  lemma {:induction false} StripParensClean(s: string)
    ensures NoParenPair(StripParens(s))
    decreases |s|
  {
    if s != [] {
      match ParenMatch(s)
      case Some(n) =>
        StripParensClean(s[n..]);
      case None =>
        StripParensClean(s[1..]);
        var rest := StripParens(s[1..]);
        var r := [s[0]] + rest;
        if s[0] == '(' {
          assert Text.LeadingSpaces(s) == 0;
          assert ')' !in s[1..];
          assert ')' !in rest;
        }
        forall i, j | 0 <= i < j < |r| && r[i] == '('
          ensures r[j] != ')'
        {
          assert r[j] == rest[j - 1];
          if i > 0 {
            assert r[i] == rest[i - 1];
          }
        }
    }
  }

  /** Text without a '('-then-')' pair has nothing to strip. */
  lemma {:induction false} StripParensNoPair(s: string)
    requires NoParenPair(s)
    ensures StripParens(s) == s
    decreases |s|
  {
    if s != [] {
      var w := Text.LeadingSpaces(s);
      if w < |s| && s[w] == '(' {
        assert forall k :: w < k < |s| ==> s[k] != ')';
        assert ')' !in s[w + 1..];
      }
      assert ParenMatch(s) == None;
      assert NoParenPair(s[1..]) by {
        forall i, j | 0 <= i < j < |s| - 1 && s[1..][i] == '('
          ensures s[1..][j] != ')'
        {
          assert s[i + 1] == '(';
        }
      }
      StripParensNoPair(s[1..]);
    }
  }

  /** Stripping is idempotent. */
  lemma StripParensIdempotent(s: string)
    ensures StripParens(StripParens(s)) == StripParens(s)
  {
    StripParensClean(s);
    StripParensNoPair(StripParens(s));
  }

  /** No match starts at a character of text that has no '(' and does not
      end in whitespace. */
  lemma NoMatchBefore(a: string, t: string)
    requires a != [] && '(' !in a && !Text.IsSpace(a[|a| - 1])
    ensures ParenMatch(a + t) == None
  {
    var s := a + t;
    var w := Text.LeadingSpaces(s);
    Text.LeadingSpacesWithin(a, t);
    assert s[w] == a[w];
  }

  /** Where no match starts, the first character is copied. */
  lemma StripParensStep(s: string)
    requires s != [] && ParenMatch(s).None?
    ensures StripParens(s) == [s[0]] + StripParens(s[1..])
  {
  }

  /** Text that has no '(' and does not end in whitespace is copied: no match
      can start inside it. */
  lemma {:induction false} StripParensCopies(a: string, t: string)
    requires '(' !in a
    requires a == [] || !Text.IsSpace(a[|a| - 1])
    ensures StripParens(a + t) == a + StripParens(t)
    decreases |a|
  {
    if a == [] {
      assert a + t == t;
    } else {
      calc {
        StripParens(a + t);
        { NoMatchBefore(a, t); StripParensStep(a + t); Text.ConsAppend(a, t); }
        [a[0]] + StripParens(a[1..] + t);
        { StripParensCopies(a[1..], t); }
        [a[0]] + (a[1..] + StripParens(t));
        { Text.AppendAssoc([a[0]], a[1..], StripParens(t)); assert [a[0]] + a[1..] == a; }
        a + StripParens(t);
      }
    }
  }

  /** The match at the front of an annotation covers all of it. */
  lemma AnnotationMatch(note: string)
    requires ')' !in note
    ensures ParenMatch(" (" + note + ")") == Some(|note| + 3)
  {
    var tail := " (" + note + ")";
    assert tail[0] == ' ' && tail[1] == '(';
    Text.LeadingSpacesOne(tail);
    Text.DropFront(" (", note, ")");
    IndexOfFirst(note + ")", ')', |note|);
  }

  /** A trimmed name followed by a space and a parenthesised annotation loses
      the annotation and the space before it. */
  lemma StripAnnotation(name: string, note: string)
    requires '(' !in name && Text.Trimmed(name)
    requires ')' !in note
    ensures StripParens(name + " (" + note + ")") == name
  {
    var tail := " (" + note + ")";
    assert name + " (" + note + ")" == name + tail;
    StripParensCopies(name, tail);
    AnnotationMatch(note);
    assert tail[|tail|..] == [];
    assert name + [] == name;
  }

  // ---------------------------------------------------------------------
  // From a names cell to a list of names
  // ---------------------------------------------------------------------

  /** `names_part.replace(" och ", ",").split(",")`. */
  function Fragments(cell: string): (r: seq<string>)
    ensures |r| >= 1
    ensures forall i :: 0 <= i < |r| ==> ',' !in r[i]
    ensures '(' !in cell ==> forall i :: 0 <= i < |r| ==> '(' !in r[i]
  {
    Text.Split(Text.Replace(cell, Conjunction, ","), ',')
  }

  lemma TrimChar(g: string, c: char)
    requires c in Text.Trim(g)
    ensures c in g
  {
    var r := Text.Trim(g);
    Text.TrimSlice(g);
    var i :| 0 <= i < |r| && r[i] == c;
    assert g[Text.LeadingSpaces(g) + i] == c;
  }

  lemma TrimNoParenPair(g: string)
    requires NoParenPair(g)
    ensures NoParenPair(Text.Trim(g))
  {
    var r := Text.Trim(g);
    var k := Text.LeadingSpaces(g);
    Text.TrimSlice(g);
    forall i, j | 0 <= i < j < |r| && r[i] == '('
      ensures r[j] != ')'
    {
      assert r[i] == g[k + i] && r[j] == g[k + j];
    }
  }

  /** One fragment after cleaning: stripped, and on the annotation path with
      every parenthetical group removed first. */
  function CleanOne(f: string, junk: bool): (r: string)
    ensures Text.Trimmed(r)
    ensures ',' !in f ==> ',' !in r
    ensures junk ==> NoParenPair(r)
  {
    CleanOneFacts(f, junk);
    Text.Trim(if junk then StripParens(f) else f)
  }

  lemma CleanOneFacts(f: string, junk: bool)
    ensures ',' !in f ==> ',' !in Text.Trim(if junk then StripParens(f) else f)
    ensures junk ==> NoParenPair(Text.Trim(StripParens(f)))
  {
    var g := if junk then StripParens(f) else f;
    if ',' in Text.Trim(g) {
      TrimChar(g, ',');
    }
    if junk {
      StripParensClean(f);
      TrimNoParenPair(g);
    }
  }

  predicate NoComma(ss: seq<string>) {
    forall i :: 0 <= i < |ss| ==> ',' !in ss[i]
  }

  /** The cleaned fragments that are not empty, in their original order. */
  function Clean(frags: seq<string>, junk: bool): (r: seq<string>)
    ensures |r| <= |frags|
    ensures forall i :: 0 <= i < |r| ==> r[i] != [] && Text.Trimmed(r[i])
    ensures NoComma(frags) ==> NoComma(r)
    ensures junk ==> forall i :: 0 <= i < |r| ==> NoParenPair(r[i])
  {
    if frags == [] then []
    else
      var c := CleanOne(frags[0], junk);
      var rest := Clean(frags[1..], junk);
      if c == [] then rest
      else
        var r := [c] + rest;
        assert forall i :: 0 < i < |r| ==> r[i] == rest[i - 1];
        r
  }

  /** A single fragment gives its cleaned form, or nothing when that is
      empty. */
  lemma CleanSingle(f: string, junk: bool)
    ensures Clean([f], junk) == if CleanOne(f, junk) == [] then [] else [CleanOne(f, junk)]
  {
    assert [f][1..] == [];
  }

  /** Cleaning works fragment by fragment: the kept pieces of two runs of
      fragments are those of the first run, then those of the second, so
      order and repeats are kept. */
  lemma {:induction false} CleanAppend(a: seq<string>, b: seq<string>, junk: bool)
    ensures Clean(a + b, junk) == Clean(a, junk) + Clean(b, junk)
    decreases |a|
  {
    if a == [] {
      assert a + b == b;
    } else {
      assert (a + b)[0] == a[0];
      assert (a + b)[1..] == a[1..] + b;
      CleanAppend(a[1..], b, junk);
    }
  }

  /** The list stored on the default path (fetch.py:96-100). */
  function PlainNames(cell: string): (r: seq<string>)
    ensures forall i :: 0 <= i < |r| ==> r[i] != [] && Text.Trimmed(r[i]) && ',' !in r[i]
  {
    Clean(Fragments(cell), false)
  }

  /** The list stored for a date whose names carry annotations (fetch.py:88-92). */
  function AnnotatedNames(cell: string): (r: seq<string>)
    ensures forall i :: 0 <= i < |r| ==> r[i] != [] && Text.Trimmed(r[i]) && ',' !in r[i]
    ensures forall i :: 0 <= i < |r| ==> NoParenPair(r[i])
  {
    Clean(Fragments(cell), true)
  }

  /** A comma splits the cell in two: the fragments before it, then the
      fragments after it, since no " och " can span the comma. */
  lemma FragmentsAppend(a: string, b: string)
    ensures Fragments(a + "," + b) == Fragments(a) + Fragments(b)
  {
    var x, y := Text.Replace(a, Conjunction, ","), Text.Replace(b, Conjunction, ",");
    assert a + "," + b == a + ("," + b);
    Text.ReplaceBarrier(a, "," + b, Conjunction, ",");
    Text.ReplaceCopies(",", b, Conjunction, ",");
    assert Text.Replace(a + "," + b, Conjunction, ",") == x + [','] + y;
    Text.SplitAppend(x, y, ',');
  }

  /** The names of a cell with two comma-separated parts are the names of
      the first part, then those of the second, on both paths: order and
      repeats are kept. */
  lemma NamesAppend(a: string, b: string)
    ensures PlainNames(a + "," + b) == PlainNames(a) + PlainNames(b)
    ensures AnnotatedNames(a + "," + b) == AnnotatedNames(a) + AnnotatedNames(b)
  {
    FragmentsAppend(a, b);
    CleanAppend(Fragments(a), Fragments(b), false);
    CleanAppend(Fragments(a), Fragments(b), true);
  }

  /** A part with no comma and no " och " is one name, or none when it
      cleans to nothing; it may hold several words. */
  lemma PieceNames(f: string)
    requires ',' !in f && !Text.Contains(f, Conjunction)
    ensures PlainNames(f) == if CleanOne(f, false) == [] then [] else [CleanOne(f, false)]
    ensures AnnotatedNames(f) == if CleanOne(f, true) == [] then [] else [CleanOne(f, true)]
  {
    Text.ReplaceNone(f, Conjunction, ",");
    Text.SplitNone(f, ',');
    CleanSingle(f, false);
    CleanSingle(f, true);
  }

  /** Exactly the non-empty cleaned fragments appear, each one where its
      fragment stood. */
  lemma {:induction false} CleanMembers(frags: seq<string>, junk: bool, x: string)
    ensures x in Clean(frags, junk) <==>
            x != [] && exists j :: 0 <= j < |frags| && CleanOne(frags[j], junk) == x
    decreases |frags|
  {
    if frags != [] {
      CleanMembers(frags[1..], junk, x);
      if x != [] && x !in Clean(frags, junk) {
        forall j | 0 <= j < |frags| ensures CleanOne(frags[j], junk) != x {
          if j > 0 {
            assert frags[j] == frags[1..][j - 1];
          }
        }
      }
      if x in Clean(frags[1..], junk) {
        var j :| 0 <= j < |frags| - 1 && CleanOne(frags[1..][j], junk) == x;
        assert frags[j + 1] == frags[1..][j];
      }
    }
  }

  /** Without a '(' in the cell the annotation path stores what the default
      path would. */
  lemma AnnotatedWithoutParens(cell: string)
    requires '(' !in cell
    ensures AnnotatedNames(cell) == PlainNames(cell)
  {
    var frags := Fragments(cell);
    forall i | 0 <= i < |frags|
      ensures StripParens(frags[i]) == frags[i]
    {
      assert '(' !in frags[i];
      StripParensNoPair(frags[i]);
    }
    CleanSame(frags);
  }

  lemma {:induction false} CleanSame(frags: seq<string>)
    requires forall i :: 0 <= i < |frags| ==> StripParens(frags[i]) == frags[i]
    ensures Clean(frags, true) == Clean(frags, false)
    decreases |frags|
  {
    if frags != [] {
      CleanSame(frags[1..]);
    }
  }

  /** A cell holding one name and one annotation without spaces or commas
      ("Mariana (Valborg)") yields just the name on the annotation path. */
  lemma AnnotatedSingle(name: string, note: string)
    requires PlainWord(name)
    requires ')' !in note && ',' !in note && ' ' !in note
    ensures AnnotatedNames(name + " (" + note + ")") == [name]
  {
    var cell := name + " (" + note + ")";
    assert Fragments(cell) == [cell] by {
      SingleFragment(name, note);
    }
    assert CleanOne(cell, true) == name by {
      StripAnnotation(name, note);
      Text.TrimExact([], name, []);
      assert [] + name + [] == name;
    }
    assert Clean([cell], true) == [name] + Clean([], true);
  }

  /** A name and an annotation without commas or " och " form one fragment. */
  lemma SingleFragment(name: string, note: string)
    requires PlainWord(name)
    requires ')' !in note && ',' !in note && ' ' !in note
    ensures Fragments(name + " (" + note + ")") == [name + " (" + note + ")"]
  {
    var cell := name + " (" + note + ")";
    ReplaceAnnotation(name, note);
    assert ',' !in cell;
    Text.SplitPrefix(cell, [], ',');
    assert cell + [] == cell;
  }

  /** " och " occurs nowhere in a name followed by an annotation without
      spaces. */
  lemma ReplaceAnnotation(name: string, note: string)
    requires PlainWord(name) && ' ' !in note
    ensures Text.Replace(name + " (" + note + ")", Conjunction, ",") == name + " (" + note + ")"
  {
    var tail := " (" + note + ")";
    assert name + " (" + note + ")" == name + tail;
    PlainWordNoSpace(name);
    Text.ReplaceCopies(name, tail, Conjunction, ",");
    ReplaceNote(note);
  }

  lemma ReplaceNote(note: string)
    requires ' ' !in note
    ensures Text.Replace(" (" + note + ")", Conjunction, ",") == " (" + note + ")"
  {
    var inner := "(" + note + ")";
    var tail := " (" + note + ")";
    assert tail[1] == '(' && !(Conjunction <= tail);
    assert tail[1..] == inner;
    Text.ReplaceCopies(inner, [], Conjunction, ",");
    assert inner + [] == inner;
  }

  lemma PlainWordNoSpace(n: string)
    requires PlainWord(n)
    ensures ' ' !in n
  {
    forall i | 0 <= i < |n| ensures n[i] != ' ' {
      assert !Text.IsSpace(n[i]);
    }
  }

  // ---------------------------------------------------------------------
  // Round trip: a list of names written with commas and " och "
  // ---------------------------------------------------------------------

  /** The separators a names cell uses between two names. */
  datatype Separator = Comma | CommaSpace | And

  function SeparatorText(s: Separator): string {
    match s
    case Comma => ","
    case CommaSpace => ", "
    case And => Conjunction
  }

  /** `names` written out with `seps[i]` between `names[i]` and `names[i + 1]`. */
  function Interleave(names: seq<string>, seps: seq<Separator>): string
    requires |names| >= 1 && |seps| == |names| - 1
  {
    if |names| == 1 then names[0]
    else names[0] + SeparatorText(seps[0]) + Interleave(names[1..], seps[1..])
  }

  /** Single-word names, none of them the conjunction itself. */
  predicate PlainWord(n: string) {
    Text.IsWord(n) && ',' !in n && '(' !in n && n != "och"
  }

  /** The separators after " och " has become ",". */
  function Normalise(seps: seq<Separator>): (r: seq<Separator>)
    ensures |r| == |seps|
    ensures forall i :: 0 <= i < |r| ==> r[i] != And
  {
    if seps == [] then []
    else [if seps[0] == And then Comma else seps[0]] + Normalise(seps[1..])
  }

  lemma NotConjunctionStart(n: string, t: string)
    requires PlainWord(n)
    requires t == [] || t[0] == ',' || t[0] == ' '
    ensures !(Conjunction <= " " + n + t)
  {
    var x := " " + n + t;
    if |x| >= 5 {
      if |n| >= 4 {
        assert x[4] == n[3] && !Text.IsSpace(n[3]);
        assert x[4] != Conjunction[4];
      } else if |n| == 3 {
        assert x[1..4] == n;
        assert x[1..4] != Conjunction[1..4];
      } else {
        assert x[|n| + 1] == t[0];
        assert x[|n| + 1] != Conjunction[|n| + 1];
      }
    }
  }

  lemma {:induction false} ReplaceInterleave(names: seq<string>, seps: seq<Separator>)
    requires |names| >= 1 && |seps| == |names| - 1
    requires forall i :: 0 <= i < |names| ==> PlainWord(names[i])
    ensures Text.Replace(Interleave(names, seps), Conjunction, ",") == Interleave(names, Normalise(seps))
    decreases |names|
  {
    var n := names[0];
    PlainWordNoSpace(n);
    if |names| == 1 {
      Text.ReplaceCopies(n, [], Conjunction, ",");
      assert n + [] == n;
    } else {
      var rest := Interleave(names[1..], seps[1..]);
      var rest' := Interleave(names[1..], Normalise(seps[1..]));
      var nseps := Normalise(seps);
      var sep := SeparatorText(seps[0]);
      var sep' := SeparatorText(nseps[0]);
      calc {
        Text.Replace(Interleave(names, seps), Conjunction, ",");
        { Text.AppendAssoc(n, sep, rest); }
        Text.Replace(n + (sep + rest), Conjunction, ",");
        { Text.ReplaceCopies(n, sep + rest, Conjunction, ","); }
        n + Text.Replace(sep + rest, Conjunction, ",");
        { ReplaceSeparator(seps[0], names[1..], seps[1..]);
          ReplaceInterleave(names[1..], seps[1..]); }
        n + (sep' + rest');
        { assert nseps[1..] == Normalise(seps[1..]); Text.AppendAssoc(n, sep', rest'); }
        Interleave(names, nseps);
      }
    }
  }

  /** The text after a name: the separator is normalised, the rest is
      replaced recursively. */
  lemma ReplaceSeparator(s: Separator, names: seq<string>, seps: seq<Separator>)
    requires |names| >= 1 && |seps| == |names| - 1
    requires forall i :: 0 <= i < |names| ==> PlainWord(names[i])
    ensures Text.Replace(SeparatorText(s) + Interleave(names, seps), Conjunction, ",")
         == SeparatorText(if s == And then Comma else s) + Text.Replace(Interleave(names, seps), Conjunction, ",")
  {
    var rest := Interleave(names, seps);
    match s
    case And =>
      Text.ReplaceFront(rest, Conjunction, ",");
    case Comma =>
      Text.ReplaceCopies(",", rest, Conjunction, ",");
    case CommaSpace =>
      ReplaceAfterSpace(names, seps);
      ReplaceCommaSpace(rest);
  }

  lemma ReplaceCommaSpace(rest: string)
    requires Text.Replace(" " + rest, Conjunction, ",") == " " + Text.Replace(rest, Conjunction, ",")
    ensures Text.Replace(", " + rest, Conjunction, ",") == ", " + Text.Replace(rest, Conjunction, ",")
  {
    var x := " " + rest;
    var y := Text.Replace(rest, Conjunction, ",");
    assert ", " == "," + " ";
    Text.AppendAssoc(",", " ", rest);
    Text.ReplaceCopies(",", x, Conjunction, ",");
    Text.AppendAssoc(",", " ", y);
  }

  lemma NoConjunctionAfterSpace(names: seq<string>, seps: seq<Separator>)
    requires |names| >= 1 && |seps| == |names| - 1
    requires PlainWord(names[0])
    ensures !(Conjunction <= " " + Interleave(names, seps))
  {
    var m := names[0];
    if |names| == 1 {
      NotConjunctionStart(m, []);
      assert " " + Interleave(names, seps) == " " + m + [];
    } else {
      var sep, rest := SeparatorText(seps[0]), Interleave(names[1..], seps[1..]);
      NotConjunctionStart(m, sep + rest);
      Text.AppendAssoc(m, sep, rest);
      Text.AppendAssoc(" ", m, sep + rest);
    }
  }

  /** The space after a comma never starts " och ", because a name follows it. */
  lemma ReplaceAfterSpace(names: seq<string>, seps: seq<Separator>)
    requires |names| >= 1 && |seps| == |names| - 1
    requires PlainWord(names[0])
    ensures Text.Replace(" " + Interleave(names, seps), Conjunction, ",")
         == " " + Text.Replace(Interleave(names, seps), Conjunction, ",")
  {
    var rest := Interleave(names, seps);
    NoConjunctionAfterSpace(names, seps);
    assert " " + rest == [' '] + rest;
    Text.ReplaceSkip(' ', rest, Conjunction, ",");
  }

  /** Splitting a comma-separated list of names and stripping the pieces. */
  lemma {:induction false} SplitInterleave(lead: string, names: seq<string>, seps: seq<Separator>)
    requires lead == [] || lead == " "
    requires |names| >= 1 && |seps| == |names| - 1
    requires forall i :: 0 <= i < |names| ==> PlainWord(names[i])
    requires forall i :: 0 <= i < |seps| ==> seps[i] != And
    ensures Clean(Text.Split(lead + Interleave(names, seps), ','), false) == names
    decreases |names|
  {
    var n := names[0];
    if |names| == 1 {
      CleanLast(lead, n);
      assert lead + Interleave(names, seps) == lead + n;
    } else {
      var lead' := if seps[0] == CommaSpace then " " else [];
      var rest := lead' + Interleave(names[1..], seps[1..]);
      calc {
        Clean(Text.Split(lead + Interleave(names, seps), ','), false);
        { CommaForm(lead, names, seps); }
        Clean(Text.Split((lead + n) + ([','] + rest), ','), false);
        { CleanStep(lead, n, rest); }
        [n] + Clean(Text.Split(rest, ','), false);
        { SplitInterleave(lead', names[1..], seps[1..]); }
        [n] + names[1..];
        names;
      }
    }
  }

  /** Without " och ", every separator is a comma, perhaps with a space. */
  lemma CommaForm(lead: string, names: seq<string>, seps: seq<Separator>)
    requires |names| >= 2 && |seps| == |names| - 1
    requires seps[0] != And
    ensures lead + Interleave(names, seps)
         == (lead + names[0]) + ([','] + ((if seps[0] == CommaSpace then " " else []) + Interleave(names[1..], seps[1..])))
  {
  }

  /** The piece before the first comma strips to the name it holds. */
  lemma CleanStep(lead: string, n: string, rest: string)
    requires lead == [] || lead == " "
    requires PlainWord(n)
    ensures Clean(Text.Split((lead + n) + ([','] + rest), ','), false)
         == [n] + Clean(Text.Split(rest, ','), false)
  {
    assert ',' !in lead + n;
    Text.SplitPrefix(lead + n, [','] + rest, ',');
    var t := [','] + rest;
    assert t[0] == ',' && t[1..] == rest;
    var tail := Text.Split(t, ',');
    assert tail == [[]] + Text.Split(rest, ',');
    assert tail[0] == [] && tail[1..] == Text.Split(rest, ',');
    assert (lead + n) + [] == lead + n;
    var parts := Text.Split((lead + n) + ([','] + rest), ',');
    assert parts == [lead + n] + Text.Split(rest, ',');
    assert parts[1..] == Text.Split(rest, ',');
    Text.TrimExact(lead, n, []);
    assert lead + n + [] == lead + n;
  }

  lemma CleanLast(lead: string, n: string)
    requires lead == [] || lead == " "
    requires PlainWord(n)
    ensures Clean(Text.Split(lead + n, ','), false) == [n]
  {
    assert ',' !in lead + n;
    Text.SplitPrefix(lead + n, [], ',');
    assert lead + n + [] == lead + n;
    Text.TrimExact(lead, n, []);
  }

  /** Names written as "A, B och C" (any mix of ",", ", " and " och ") come
      back out of the default path exactly, in order. */
  lemma PlainNamesRoundTrip(names: seq<string>, seps: seq<Separator>)
    requires |names| >= 1 && |seps| == |names| - 1
    requires forall i :: 0 <= i < |names| ==> PlainWord(names[i])
    ensures PlainNames(Interleave(names, seps)) == names
  {
    ReplaceInterleave(names, seps);
    SplitInterleave([], names, Normalise(seps));
    assert [] + Interleave(names, Normalise(seps)) == Interleave(names, Normalise(seps));
  }

  /** The same list comes out of the annotation path when no name carries an
      annotation. */
  lemma AnnotatedNamesRoundTrip(names: seq<string>, seps: seq<Separator>)
    requires |names| >= 1 && |seps| == |names| - 1
    requires forall i :: 0 <= i < |names| ==> PlainWord(names[i])
    ensures AnnotatedNames(Interleave(names, seps)) == names
  {
    InterleaveChars(names, seps);
    AnnotatedWithoutParens(Interleave(names, seps));
    PlainNamesRoundTrip(names, seps);
  }

  lemma {:induction false} InterleaveChars(names: seq<string>, seps: seq<Separator>)
    requires |names| >= 1 && |seps| == |names| - 1
    requires forall i :: 0 <= i < |names| ==> '(' !in names[i]
    ensures '(' !in Interleave(names, seps)
    decreases |names|
  {
    if |names| > 1 {
      InterleaveChars(names[1..], seps[1..]);
    }
  }
}
