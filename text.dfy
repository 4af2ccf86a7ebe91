/** String operations of the Python standard library that the note generator and the
    document renderer rely on: `strip`, `lstrip` with a character set, `split` on a literal
    separator, `splitlines`, `join`, slicing and `replace`.

    Approximations: whitespace is the set of ASCII characters Python counts as whitespace
    (space, tab, line feed, vertical tab, form feed, carriage return and the separators
    U+001C to U+001F), without the non-ASCII ones, and the only line break is the line feed. */
module Text {

  predicate IsSpace(c: char) {
    c == ' ' || ('\t' <= c <= '\r') || ('\U{001C}' <= c <= '\U{001F}')
  }

  /** No leading and no trailing whitespace. */
  predicate IsTrimmed(s: string) {
    s == [] || (!IsSpace(s[0]) && !IsSpace(s[|s| - 1]))
  }

  predicate AllSpace(s: string) {
    forall i | 0 <= i < |s| :: IsSpace(s[i])
  }

  /** `s.lstrip()`: `s` without its leading whitespace (characterised by `LStripFacts`). */
  function LStrip(s: string): string
  {
    if s != [] && IsSpace(s[0]) then LStrip(s[1..]) else s
  }

  /** What `LStrip` removes is whitespace, and what it keeps is a suffix that does not start
      with whitespace. */
  lemma {:induction false} LStripFacts(s: string)
    ensures var r := LStrip(s);
      && |r| <= |s| && r == s[|s| - |r|..]
      && AllSpace(s[..|s| - |r|])
      && (r == [] || !IsSpace(r[0]))
  {
    if s != [] && IsSpace(s[0]) {
      LStripFacts(s[1..]);
      var r := LStrip(s);
      assert s[..|s| - |r|] == [s[0]] + s[1..][..|s| - 1 - |r|];
    }
  }

  /** `s.rstrip()`: `s` without its trailing whitespace (characterised by `RStripFacts`). */
  function RStrip(s: string): string
  {
    if s != [] && IsSpace(s[|s| - 1]) then RStrip(s[..|s| - 1]) else s
  }

  lemma {:induction false} RStripFacts(s: string)
    ensures var r := RStrip(s);
      && |r| <= |s| && r == s[..|r|]
      && AllSpace(s[|r|..])
      && (r == [] || !IsSpace(r[|r| - 1]))
  {
    if s != [] && IsSpace(s[|s| - 1]) {
      RStripFacts(s[..|s| - 1]);
      var r := RStrip(s);
      assert s[|r|..] == s[..|s| - 1][|r|..] + [s[|s| - 1]];
    }
  }

  /** `s.strip()`: `s` without its leading and trailing whitespace (`StripIsSlice` says which
      slice of `s` it is). */
  function Strip(s: string): (r: string)
    ensures IsTrimmed(r)
    ensures |r| <= |s|
    ensures r == [] <==> AllSpace(s)
  {
    StripFacts(s);
    RStrip(LStrip(s))
  }

  /** The stripped string is the slice of `s` that whitespace surrounds on both sides. */
  lemma StripIsSlice(s: string)
    ensures var r := Strip(s);
      exists i | 0 <= i <= |s| - |r| ::
        r == s[i..i + |r|] && AllSpace(s[..i]) && AllSpace(s[i + |r|..])
  {
    LStripFacts(s);
    StripSliceAt(s, |s| - |LStrip(s)|);
  }

  /** `StripIsSlice` with the witness: the slice starts after the leading whitespace. */
  lemma StripSliceAt(s: string, i: nat)
    requires i == |s| - |LStrip(s)|
    ensures var r := Strip(s);
      i <= |s| - |r| && r == s[i..i + |r|] && AllSpace(s[..i]) && AllSpace(s[i + |r|..])
  {
    LStripFacts(s);
    var l := LStrip(s);
    RStripFacts(l);
    var r := RStrip(l);
    assert s[i..] == l;
    assert s[i..i + |r|] == l[..|r|];
    assert s[i + |r|..] == l[|r|..];
  }

  /** Stripping only removes characters. */
  lemma StripKeepsChars(s: string)
    ensures forall c | c in Strip(s) :: c in s
  {
    StripFacts(s);
  }

  lemma StripFacts(s: string)
    ensures |RStrip(LStrip(s))| <= |s|
    ensures IsTrimmed(RStrip(LStrip(s)))
    ensures RStrip(LStrip(s)) == [] <==> AllSpace(s)
    ensures forall c | c in RStrip(LStrip(s)) :: c in s
  {
    var l := LStrip(s);
    var r := RStrip(l);
    LStripFacts(s);
    RStripFacts(l);
    if r != [] {
      assert r[0] == l[0];
    }
    StripEmpty(s, l, r);
    assert forall c | c in r :: c in l;
    assert forall c | c in l :: c in s;
  }

  lemma StripEmpty(s: string, l: string, r: string)
    requires l == LStrip(s) && r == RStrip(l)
    ensures r == [] <==> AllSpace(s)
  {
    LStripFacts(s);
    RStripFacts(l);
    if r == [] {
      assert AllSpace(l) by {
        assert l[|r|..] == l;
      }
      assert l == [];
      assert s[..|s|] == s;
    }
  }

  /** Trimmed strings are the fixed points of `Strip`. */
  lemma {:induction false} StripTrimmed(s: string)
    requires IsTrimmed(s)
    ensures Strip(s) == s
  {
    if s != [] {
      assert LStrip(s) == s;
      assert RStrip(s) == s;
      StripFacts(s);
    }
  }

  lemma StripIdempotent(s: string)
    ensures Strip(Strip(s)) == Strip(s)
  {
    StripTrimmed(Strip(s));
  }

  /** `s[:n]` for a non-negative `n`. */
  function Take(s: string, n: nat): (r: string)
    ensures |r| == (if |s| <= n then |s| else n)
    ensures r == s[..|r|]
  {
    if |s| <= n then s else s[..n]
  }

  /** `sep` occurs in `s` at position `k`. */
  predicate OccursAt(s: string, sep: string, k: nat) {
    k + |sep| <= |s| && s[k..k + |sep|] == sep
  }

  /** `s.split(sep)`: scanning from the left, every occurrence of `sep` ends one piece and
      the scan resumes after it; occurrences do not overlap. */
  function Split(s: string, sep: string): (parts: seq<string>)
    requires sep != []
    ensures |parts| >= 1
    decreases |s|
  {
    if |s| < |sep| then [s]
    else if s[..|sep|] == sep then [""] + Split(s[|sep|..], sep)
    else
      var rest := Split(s[1..], sep);
      [[s[0]] + rest[0]] + rest[1..]
  }

  /** `sep.join(parts)`. */
  function Join(parts: seq<string>, sep: string): string
  {
    if |parts| == 0 then ""
    else if |parts| == 1 then parts[0]
    else parts[0] + sep + Join(parts[1..], sep)
  }

  /** `s.count(sep)`: the number of non-overlapping occurrences, counted from the left. */
  function Count(s: string, sep: string): nat
    requires sep != []
    decreases |s|
  {
    if |s| < |sep| then 0
    else if s[..|sep|] == sep then 1 + Count(s[|sep|..], sep)
    else Count(s[1..], sep)
  }

  lemma JoinConsHead(c: char, parts: seq<string>, sep: string)
    requires |parts| >= 1
    ensures Join([[c] + parts[0]] + parts[1..], sep) == [c] + Join(parts, sep)
  {
    var ps := [[c] + parts[0]] + parts[1..];
    if |parts| > 1 {
      assert ps[1..] == parts[1..];
    }
  }

  /** Joining the pieces of a split with the same separator gives back the input. */
  lemma {:induction false} JoinSplit(s: string, sep: string)
    requires sep != []
    ensures Join(Split(s, sep), sep) == s
    decreases |s|
  {
    if |s| < |sep| {
    } else if s[..|sep|] == sep {
      var rest := Split(s[|sep|..], sep);
      JoinSplit(s[|sep|..], sep);
      assert Split(s, sep) == [""] + rest;
      assert ([""] + rest)[1..] == rest;
      assert Join([""] + rest, sep) == "" + sep + Join(rest, sep);
      assert s == sep + s[|sep|..];
    } else {
      var rest := Split(s[1..], sep);
      JoinSplit(s[1..], sep);
      assert Split(s, sep) == [[s[0]] + rest[0]] + rest[1..];
      JoinConsHead(s[0], rest, sep);
      assert s == [s[0]] + s[1..];
    }
  }

  /** A split has one more piece than the separator has occurrences. */
  lemma {:induction false} SplitCount(s: string, sep: string)
    requires sep != []
    ensures |Split(s, sep)| == Count(s, sep) + 1
    decreases |s|
  {
    if |s| < |sep| {
    } else if s[..|sep|] == sep {
      SplitCount(s[|sep|..], sep);
    } else {
      SplitCount(s[1..], sep);
    }
  }

  /** No piece of a split contains the separator. */
  lemma {:induction false} SplitPiecesFree(s: string, sep: string)
    requires sep != []
    ensures forall i, k: nat | 0 <= i < |Split(s, sep)| :: !OccursAt(Split(s, sep)[i], sep, k)
    decreases |s|
  {
    var parts := Split(s, sep);
    if |s| < |sep| {
      forall k | OccursAt(s, sep, k) ensures false { }
    } else if s[..|sep|] == sep {
      SplitPiecesFree(s[|sep|..], sep);
      var rest := Split(s[|sep|..], sep);
      forall i, k: nat | 0 <= i < |parts| ensures !OccursAt(parts[i], sep, k) {
        if i > 0 { assert parts[i] == rest[i - 1]; }
      }
    } else {
      var rest := Split(s[1..], sep);
      SplitPiecesFree(s[1..], sep);
      JoinSplit(s[1..], sep);
      PieceIsPrefix(rest, sep);
      forall i, k: nat | 0 <= i < |parts| ensures !OccursAt(parts[i], sep, k) {
        if i > 0 {
          assert parts[i] == rest[i];
        } else if k > 0 && OccursAt(parts[0], sep, k) {
          var p := parts[0];
          assert p == [s[0]] + rest[0];
          assert p[k..k + |sep|] == rest[0][k - 1..k - 1 + |sep|];
          assert OccursAt(rest[0], sep, k - 1);
        }
      }
    }
  }

  /** Every piece but the last ends at the leftmost occurrence of the separator after its
      start: in the piece followed by the separator, nothing earlier is an occurrence. */
  predicate EndsAtFirstSeparator(parts: seq<string>, sep: string) {
    forall i, k: nat | 0 <= i < |parts| - 1 && k < |parts[i]| :: !OccursAt(parts[i] + sep, sep, k)
  }

  /** `split` cuts at the leftmost occurrence each time. */
  lemma {:induction false} SplitLeftmost(s: string, sep: string)
    requires sep != []
    ensures EndsAtFirstSeparator(Split(s, sep), sep)
    decreases |s|
  {
    var parts := Split(s, sep);
    if |s| < |sep| {
    } else if s[..|sep|] == sep {
      var rest := Split(s[|sep|..], sep);
      SplitLeftmost(s[|sep|..], sep);
      assert parts == [""] + rest;
      forall i, k: nat | 0 <= i < |parts| - 1 && k < |parts[i]|
        ensures !OccursAt(parts[i] + sep, sep, k)
      {
        assert parts[i] == rest[i - 1];
      }
    } else {
      var rest := Split(s[1..], sep);
      SplitLeftmost(s[1..], sep);
      JoinSplit(s, sep);
      assert parts == [[s[0]] + rest[0]] + rest[1..];
      forall i, k: nat | 0 <= i < |parts| - 1 && k < |parts[i]|
        ensures !OccursAt(parts[i] + sep, sep, k)
      {
        if i >= 1 {
          assert parts[i] == rest[i];
          assert !OccursAt(rest[i] + sep, sep, k);
        } else if k == 0 {
          FirstPieceThenSeparator(parts, sep);
          assert (parts[0] + sep)[..|sep|] == s[..|sep|];
        } else {
          assert parts[0] + sep == [s[0]] + (rest[0] + sep);
          assert (parts[0] + sep)[k..k + |sep|] == (rest[0] + sep)[k - 1..k - 1 + |sep|];
          assert !OccursAt(rest[0] + sep, sep, k - 1);
        }
      }
    }
  }

  lemma FirstPieceThenSeparator(parts: seq<string>, sep: string)
    requires |parts| >= 2
    ensures parts[0] + sep <= Join(parts, sep)
  {
    assert Join(parts, sep) == (parts[0] + sep) + Join(parts[1..], sep);
  }

  /** The first piece of a join is a prefix of it. */
  lemma PieceIsPrefix(parts: seq<string>, sep: string)
    requires |parts| >= 1
    ensures parts[0] == Join(parts, sep)[..|parts[0]|]
  {
  }

  /** `s.splitlines()` with the line feed as the only line break: a trailing line feed does
      not open an empty last line, and the empty string has no lines. */
  function SplitLines(s: string): (lines: seq<string>)
    ensures forall i | 0 <= i < |lines| :: '\n' !in lines[i]
  {
    if s == [] then []
    else
      var pieces := Split(s, "\n");
      NoLineFeedInPieces(s);
      if s[|s| - 1] == '\n' then pieces[..|pieces| - 1] else pieces
  }

  lemma NoLineFeedInPieces(s: string)
    ensures forall i | 0 <= i < |Split(s, "\n")| :: '\n' !in Split(s, "\n")[i]
  {
    SplitPiecesFree(s, "\n");
    var parts := Split(s, "\n");
    forall i | 0 <= i < |parts| ensures '\n' !in parts[i] {
      forall k | 0 <= k < |parts[i]| ensures parts[i][k] != '\n' {
        assert !OccursAt(parts[i], "\n", k);
        assert parts[i][k..k + 1] == [parts[i][k]];
      }
    }
  }

  /** Joining the lines with line feeds gives back the input up to a final line feed. */
  lemma SplitLinesJoin(s: string)
    ensures Join(SplitLines(s), "\n") + (if s != [] && s[|s| - 1] == '\n' then "\n" else "") == s
  {
    if s != [] {
      var pieces := Split(s, "\n");
      JoinSplit(s, "\n");
      NoLineFeedInPieces(s);
      if s[|s| - 1] == '\n' {
        JoinDropLast(pieces, s);
      }
    }
  }

  lemma {:induction false} JoinDropLast(pieces: seq<string>, s: string)
    requires |pieces| >= 1 && Join(pieces, "\n") == s && s != [] && s[|s| - 1] == '\n'
    requires forall i | 0 <= i < |pieces| :: '\n' !in pieces[i]
    ensures |pieces| >= 2 && pieces[|pieces| - 1] == ""
    ensures Join(pieces[..|pieces| - 1], "\n") + "\n" == s
    decreases |pieces|
  {
    assert |pieces| != 1;
    var tail := Join(pieces[1..], "\n");
    assert s == pieces[0] + "\n" + tail;
    if |pieces| == 2 {
      assert tail == pieces[1];
      assert pieces[1] == [];
      assert pieces[..1] == [pieces[0]];
    } else {
      assert tail != [] && tail[|tail| - 1] == s[|s| - 1];
      JoinDropLast(pieces[1..], tail);
      assert pieces[1..][..|pieces| - 2] == pieces[..|pieces| - 1][1..];
    }
  }

  /** Splitting a join again gives back the pieces when no piece contains the (one-character)
      separator. */
  lemma {:induction false} SplitJoin(parts: seq<string>, sep: char)
    requires |parts| >= 1
    requires forall i | 0 <= i < |parts| :: sep !in parts[i]
    ensures Split(Join(parts, [sep]), [sep]) == parts
    decreases |parts|, |parts[0]|
  {
    var s := Join(parts, [sep]);
    if parts[0] == [] {
      if |parts| == 1 {
      } else {
        assert s == [sep] + Join(parts[1..], [sep]);
        assert s[..1] == [sep];
        assert s[1..] == Join(parts[1..], [sep]);
        SplitJoin(parts[1..], sep);
        assert parts == [""] + parts[1..];
      }
    } else {
      var c := parts[0][0];
      var shorter := [parts[0][1..]] + parts[1..];
      assert parts[0] == [c] + parts[0][1..];
      JoinConsHead(c, shorter, [sep]);
      assert shorter[1..] == parts[1..];
      assert [[c] + shorter[0]] + shorter[1..] == parts;
      assert s == [c] + Join(shorter, [sep]);
      assert forall i | 0 <= i < |shorter| :: sep !in shorter[i] by {
        forall i | 0 <= i < |shorter| ensures sep !in shorter[i] {
          if i == 0 { assert forall x | x in shorter[0] :: x in parts[0]; }
          else { assert shorter[i] == parts[i]; }
        }
      }
      SplitJoin(shorter, sep);
      assert s[1..] == Join(shorter, [sep]);
      assert s[..1] != [sep];
    }
  }

  /** `s.replace("\n", "<br/>")`. */
  function ReplaceLineFeeds(s: string): (r: string)
    ensures '\n' !in r
  {
    if s == [] then ""
    else (if s[0] == '\n' then "<br/>" else [s[0]]) + ReplaceLineFeeds(s[1..])
  }

  /** Replacing line feeds is the same as splitting on them and joining with the break tag. */
  lemma {:induction false} ReplaceIsSplitJoin(s: string)
    ensures ReplaceLineFeeds(s) == Join(Split(s, "\n"), "<br/>")
    decreases |s|
  {
    if s == [] {
    } else if s[0] == '\n' {
      ReplaceIsSplitJoin(s[1..]);
      assert s[..1] == "\n";
      var rest := Split(s[1..], "\n");
      assert ([""] + rest)[1..] == rest;
    } else {
      ReplaceIsSplitJoin(s[1..]);
      assert s[..1] != "\n";
      JoinConsHead(s[0], Split(s[1..], "\n"), "<br/>");
    }
  }

  /** `[l.strip() for l in lines if l.strip()]`: the stripped non-blank lines, in order. */
  function NonBlankStripped(lines: seq<string>): (r: seq<string>)
    ensures |r| <= |lines|
    ensures forall i | 0 <= i < |r| :: r[i] != [] && IsTrimmed(r[i])
  {
    if lines == [] then []
    else
      var last := Strip(lines[|lines| - 1]);
      NonBlankStripped(lines[..|lines| - 1]) + (if last != [] then [last] else [])
  }

  /** The positions of the non-blank lines. */
  function NonBlankIndices(lines: seq<string>): set<int> {
    set i | 0 <= i < |lines| && Strip(lines[i]) != []
  }

  /** One stripped line is kept for every non-blank line. */
  lemma {:induction false} NonBlankCount(lines: seq<string>)
    ensures |NonBlankStripped(lines)| == |NonBlankIndices(lines)|
  {
    if lines == [] {
      assert NonBlankIndices(lines) == {};
    } else {
      var n := |lines| - 1;
      NonBlankCount(lines[..n]);
      NonBlankIndicesStep(lines);
    }
  }

  lemma NonBlankIndicesStep(lines: seq<string>)
    requires lines != []
    ensures var n := |lines| - 1;
      var added: set<int> := if Strip(lines[n]) != [] then {n} else {};
      NonBlankIndices(lines) == NonBlankIndices(lines[..n]) + added
      && NonBlankIndices(lines[..n]) !! added
  {
    var n := |lines| - 1;
    var init := lines[..n];
    var added: set<int> := if Strip(lines[n]) != [] then {n} else {};
    forall x ensures x in NonBlankIndices(lines) <==> x in NonBlankIndices(init) + added {
      if 0 <= x < n { assert init[x] == lines[x]; }
    }
  }

  /** The kept lines of a prefix are a prefix of the kept lines. */
  lemma {:induction false} NonBlankPrefix(lines: seq<string>, j: nat)
    requires j <= |lines|
    ensures NonBlankStripped(lines[..j]) <= NonBlankStripped(lines)
  {
    if j == |lines| {
      assert lines[..j] == lines;
    } else {
      var init := lines[..|lines| - 1];
      assert lines[..j] == init[..j];
      NonBlankPrefix(init, j);
    }
  }

  /** A non-blank line appears stripped, right after the lines kept before it: the kept lines
      are all the non-blank lines, in their original order. */
  lemma NonBlankPosition(lines: seq<string>, i: nat)
    requires i < |lines| && Strip(lines[i]) != []
    ensures var r := NonBlankStripped(lines);
      var before := |NonBlankStripped(lines[..i])|;
      before < |r| && r[before] == Strip(lines[i])
  {
    assert lines[..i + 1][..i] == lines[..i];
    assert NonBlankStripped(lines[..i + 1]) == NonBlankStripped(lines[..i]) + [Strip(lines[i])];
    NonBlankPrefix(lines, i + 1);
  }
}
