/**
  The tag field of the add/edit form: the text box is seeded with the bookmark's
  tags joined by ", ", and every edit is parsed back into a tag list by
  `parseTags`: split on runs of commas and spaces, trim each piece, drop empty
  pieces and keep only the first occurrence of each tag.
*/
module BookmarkForm {
  import opened Text
  import opened Lists
  import opened Store

  /** The character class of the pattern `/[, ]+/`. */
  predicate IsTagSeparator(c: char) {
    c == ',' || c == ' '
  }

  predicate NoSeparator(t: string) {
    forall i :: 0 <= i < |t| ==> !IsTagSeparator(t[i])
  }

  /** Drops the run of separators at the front of `s`. */
  function SkipSeparators(s: string): (r: string)
    ensures |r| <= |s| && r == s[|s| - |r|..]
    ensures r == [] || !IsTagSeparator(r[0])
    ensures (forall i :: 0 <= i < |s| ==> IsTagSeparator(s[i])) ==> r == []
  {
    if s != [] && IsTagSeparator(s[0]) then SkipSeparators(s[1..]) else s
  }

  /** `s.split(/[, ]+/)`: the pieces between maximal runs of commas and spaces. */
  function SplitOnSeparatorRuns(s: string): (r: seq<string>)
    ensures |r| >= 1
    decreases |s|
  {
    if s == [] then [""]
    else if IsTagSeparator(s[0]) then [""] + SplitOnSeparatorRuns(SkipSeparators(s[1..]))
    else
      var rest := SplitOnSeparatorRuns(s[1..]);
      [[s[0]] + rest[0]] + rest[1..]
  }

  /** No piece holds a comma or a space. */
  lemma {:induction false} SplitPiecesFree(s: string)
    ensures forall k :: 0 <= k < |SplitOnSeparatorRuns(s)| ==> NoSeparator(SplitOnSeparatorRuns(s)[k])
    decreases |s|
  {
    if s != [] {
      if IsTagSeparator(s[0]) {
        SplitPiecesFree(SkipSeparators(s[1..]));
      } else {
        SplitPiecesFree(s[1..]);
        var rest := SplitOnSeparatorRuns(s[1..]);
        assert NoSeparator([s[0]] + rest[0]) by {
          forall i | 0 <= i < |[s[0]] + rest[0]| ensures !IsTagSeparator(([s[0]] + rest[0])[i]) {
            if i > 0 {
              assert ([s[0]] + rest[0])[i] == rest[0][i - 1];
            }
          }
        }
      }
    }
  }

  /** A non-empty run of commas and spaces: what one match of `/[, ]+/` removes. */
  predicate SeparatorRun(t: string) {
    t != [] && forall i :: 0 <= i < |t| ==> IsTagSeparator(t[i])
  }

  /** The pieces with the runs put back between them: `pieces[0] + runs[0] + pieces[1] + ...`. */
  function Interleave(pieces: seq<string>, runs: seq<string>): (s: string)
    requires |pieces| == |runs| + 1
    ensures pieces[0] <= s
    decreases |runs|
  {
    if runs == [] then pieces[0] else pieces[0] + runs[0] + Interleave(pieces[1..], runs[1..])
  }

  /** What `SkipSeparators` drops is a run of separators. */
  lemma {:induction false} SkipSeparatorsDrops(s: string)
    ensures forall i :: 0 <= i < |s| - |SkipSeparators(s)| ==> IsTagSeparator(s[i])
  {
    if s != [] && IsTagSeparator(s[0]) {
      SkipSeparatorsDrops(s[1..]);
      forall i | 1 <= i < |s| - |SkipSeparators(s)| ensures IsTagSeparator(s[i]) {
        assert s[i] == s[1..][i - 1];
      }
    }
  }

  /** Putting a character in front of the first piece puts it in front of the whole. */
  lemma InterleaveConsHead(c: char, pieces: seq<string>, runs: seq<string>)
    requires |pieces| == |runs| + 1
    ensures Interleave([[c] + pieces[0]] + pieces[1..], runs) == [c] + Interleave(pieces, runs)
  {
    var moved := [[c] + pieces[0]] + pieces[1..];
    assert moved[1..] == pieces[1..];
  }

  /** An empty first piece followed by a run contributes just the run. */
  lemma InterleaveEmptyHead(run: string, pieces: seq<string>, runs: seq<string>)
    requires |pieces| == |runs| + 1
    ensures Interleave([""] + pieces, [run] + runs) == run + Interleave(pieces, runs)
  {
    var p, q := [""] + pieces, [run] + runs;
    assert p[1..] == pieces && q[1..] == runs;
    assert Interleave(p, q) == "" + run + Interleave(pieces, runs);
    assert "" + run == run;
  }

  /** The runs of separators that `split(/[, ]+/)` removes, in order. */
  function SeparatorRuns(s: string): seq<string>
    decreases |s|
  {
    if s == [] then []
    else if IsTagSeparator(s[0]) then [LeadingRun(s)] + SeparatorRuns(SkipSeparators(s[1..]))
    else SeparatorRuns(s[1..])
  }

  /** The run at the front of `s`: its separator and those `SkipSeparators` drops after it. */
  function LeadingRun(s: string): string
    requires s != []
  {
    s[..|s| - |SkipSeparators(s[1..])|]
  }

  /** A separator in front, with the run `SkipSeparators` drops after it, is a run. */
  lemma DroppedRun(s: string)
    requires s != [] && IsTagSeparator(s[0])
    ensures SeparatorRun(LeadingRun(s))
  {
    var u := s[1..];
    var n := |u| - |SkipSeparators(u)|;
    var run := s[..n + 1];
    SkipSeparatorsDrops(u);
    assert forall i :: 0 <= i < n ==> IsTagSeparator(u[i]);
    forall i | 0 <= i < |run| ensures IsTagSeparator(run[i]) {
      if i > 0 {
        assert run[i] == u[i - 1];
      }
    }
  }

  /** One step of the split and of its runs at a leading separator. */
  lemma UnfoldAtSeparator(s: string)
    requires s != [] && IsTagSeparator(s[0])
    ensures var t := SkipSeparators(s[1..]);
      SplitOnSeparatorRuns(s) == [""] + SplitOnSeparatorRuns(t)
      && SeparatorRuns(s) == [LeadingRun(s)] + SeparatorRuns(t)
  {
  }

  /** One step of the split and of its runs at a leading non-separator. */
  lemma UnfoldAtOther(s: string)
    requires s != [] && !IsTagSeparator(s[0])
    ensures var rest := SplitOnSeparatorRuns(s[1..]);
      SplitOnSeparatorRuns(s) == [[s[0]] + rest[0]] + rest[1..]
      && SeparatorRuns(s) == SeparatorRuns(s[1..])
  {
  }

  /** There is one run between each two pieces, and each is a non-empty run of separators. */
  lemma {:induction false} SeparatorRunsShape(s: string)
    ensures |SeparatorRuns(s)| == |SplitOnSeparatorRuns(s)| - 1
    ensures forall k :: 0 <= k < |SeparatorRuns(s)| ==> SeparatorRun(SeparatorRuns(s)[k])
    decreases |s|
  {
    if s != [] {
      if IsTagSeparator(s[0]) {
        var t := SkipSeparators(s[1..]);
        var runs := SeparatorRuns(t);
        SeparatorRunsShape(t);
        DroppedRun(s);
        UnfoldAtSeparator(s);
        var all := [LeadingRun(s)] + runs;
        forall k | 0 <= k < |all| ensures SeparatorRun(all[k]) {
          if k > 0 {
            assert all[k] == runs[k - 1];
          }
        }
      } else {
        SeparatorRunsShape(s[1..]);
        UnfoldAtOther(s);
      }
    }
  }

  /** The pieces with the runs put back between them give back the input. */
  lemma {:induction false} SeparatorRunsRebuild(s: string)
    ensures |SeparatorRuns(s)| == |SplitOnSeparatorRuns(s)| - 1
    ensures Interleave(SplitOnSeparatorRuns(s), SeparatorRuns(s)) == s
    decreases |s|
  {
    SeparatorRunsShape(s);
    if s != [] {
      if IsTagSeparator(s[0]) {
        SeparatorRunsRebuild(SkipSeparators(s[1..]));
        RebuildAtSeparator(s);
      } else {
        SeparatorRunsRebuild(s[1..]);
        RebuildAtOther(s);
      }
    }
  }

  /** The step of `SeparatorRunsRebuild` at a leading separator. */
  lemma RebuildAtSeparator(s: string)
    requires s != [] && IsTagSeparator(s[0])
    requires var t := SkipSeparators(s[1..]);
      |SeparatorRuns(t)| == |SplitOnSeparatorRuns(t)| - 1
      && Interleave(SplitOnSeparatorRuns(t), SeparatorRuns(t)) == t
    ensures Interleave(SplitOnSeparatorRuns(s), SeparatorRuns(s)) == s
  {
    var t := SkipSeparators(s[1..]);
    calc {
      Interleave(SplitOnSeparatorRuns(s), SeparatorRuns(s));
      { UnfoldAtSeparator(s); }
      Interleave([""] + SplitOnSeparatorRuns(t), [LeadingRun(s)] + SeparatorRuns(t));
      { InterleaveEmptyHead(LeadingRun(s), SplitOnSeparatorRuns(t), SeparatorRuns(t)); }
      LeadingRun(s) + t;
      { RunThenRest(s); }
      s;
    }
  }

  /** The leading run followed by what `SkipSeparators` leaves is the whole input. */
  lemma RunThenRest(s: string)
    requires s != []
    ensures LeadingRun(s) + SkipSeparators(s[1..]) == s
  {
    var t := SkipSeparators(s[1..]);
    var n := |s| - |t|;
    assert t == s[n..] by {
      assert t == s[1..][|s| - 1 - |t|..];
    }
    assert s[..n] + s[n..] == s;
  }

  /** The step of `SeparatorRunsRebuild` at a leading non-separator. */
  lemma RebuildAtOther(s: string)
    requires s != [] && !IsTagSeparator(s[0])
    requires |SeparatorRuns(s[1..])| == |SplitOnSeparatorRuns(s[1..])| - 1
      && Interleave(SplitOnSeparatorRuns(s[1..]), SeparatorRuns(s[1..])) == s[1..]
    ensures Interleave(SplitOnSeparatorRuns(s), SeparatorRuns(s)) == s
  {
    UnfoldAtOther(s);
    InterleaveConsHead(s[0], SplitOnSeparatorRuns(s[1..]), SeparatorRuns(s[1..]));
    assert [s[0]] + s[1..] == s;
  }

  /**
    The pieces of the split, with a non-empty run of separators put back between
    each two of them, give back the input. With `SplitPiecesFree`,
    `SplitInteriorNonEmpty`, `SplitFirstPiece` and `SplitLastPiece` every run is
    a maximal one, so the pieces are exactly those of `split(/[, ]+/)`.
  */
  lemma SplitRebuilds(s: string)
    ensures exists runs ::
      (|runs| == |SplitOnSeparatorRuns(s)| - 1
       && (forall k :: 0 <= k < |runs| ==> SeparatorRun(runs[k]))
       && Interleave(SplitOnSeparatorRuns(s), runs) == s)
  {
    SeparatorRunsShape(s);
    SeparatorRunsRebuild(s);
  }

  /** The first piece is empty exactly when the input is empty or starts with a separator. */
  lemma SplitFirstPiece(s: string)
    ensures SplitOnSeparatorRuns(s)[0] == "" <==> s == [] || IsTagSeparator(s[0])
  {
  }

  /**
    Every piece between the first and the last is non-empty: two runs of
    separators never meet, so each run is a maximal one.
  */
  lemma {:induction false} SplitInteriorNonEmpty(s: string)
    ensures forall k :: 0 < k < |SplitOnSeparatorRuns(s)| - 1 ==> SplitOnSeparatorRuns(s)[k] != ""
    decreases |s|
  {
    var r := SplitOnSeparatorRuns(s);
    if s != [] {
      if IsTagSeparator(s[0]) {
        var t := SkipSeparators(s[1..]);
        var rt := SplitOnSeparatorRuns(t);
        SplitInteriorNonEmpty(t);
        assert r == [""] + rt;
        if |rt| >= 2 {
          assert t != [];
          SplitFirstPiece(t);
        }
        forall k | 0 < k < |r| - 1 ensures r[k] != "" {
          assert r[k] == rt[k - 1];
        }
      } else {
        var rest := SplitOnSeparatorRuns(s[1..]);
        SplitInteriorNonEmpty(s[1..]);
        forall k | 0 < k < |r| - 1 ensures r[k] != "" {
          assert r[k] == rest[k];
        }
      }
    }
  }

  /** The last piece is empty exactly when the input is empty or ends with a separator. */
  lemma {:induction false} SplitLastPiece(s: string)
    ensures var r := SplitOnSeparatorRuns(s);
      r[|r| - 1] == "" <==> s == [] || IsTagSeparator(s[|s| - 1])
    decreases |s|
  {
    var r := SplitOnSeparatorRuns(s);
    if s != [] {
      if IsTagSeparator(s[0]) {
        var t := SkipSeparators(s[1..]);
        var rt := SplitOnSeparatorRuns(t);
        assert r == [""] + rt;
        if t == [] {
          SkipSeparatorsDrops(s[1..]);
          if |s| > 1 {
            assert s[|s| - 1] == s[1..][|s| - 2];
          }
        } else {
          SplitLastPiece(t);
          assert t[|t| - 1] == s[|s| - 1];
        }
      } else {
        var u := s[1..];
        var rest := SplitOnSeparatorRuns(u);
        SplitLastPiece(u);
        if u != [] {
          assert u[|u| - 1] == s[|s| - 1];
          SplitFirstPiece(u);
        }
      }
    }
  }

  /** The trimmed pieces of the input, before the filter. */
  function Pieces(value: string): seq<string> {
    TrimEach(SplitOnSeparatorRuns(value))
  }

  /** A character-free range of a separator-free string is separator-free. */
  lemma NoSeparatorInside(s: string, t: string, a: int)
    requires NoSeparator(s) && OccursAt(s, t, a)
    ensures NoSeparator(t)
  {
    forall i | 0 <= i < |t| ensures !IsTagSeparator(t[i]) {
      assert t[i] == s[a + i];
    }
  }

  /** A tag as `parseTags` produces it. */
  predicate WellFormedTag(t: string) {
    t != "" && NoSeparator(t) && NoEdgeWhitespace(t)
  }

  /**
    `parseTags(value)`: the non-empty trimmed pieces, each kept at its first
    occurrence, in input order.
  */
  function ParseTags(value: string): (r: seq<string>)
    ensures forall k :: 0 <= k < |r| ==> WellFormedTag(r[k])
    ensures NoDup(r)
    ensures forall t :: t in r <==> t in Pieces(value) && t != ""
    ensures forall i, j :: 0 <= i < j < |r| ==> IndexOf(Pieces(value), r[i]) < IndexOf(Pieces(value), r[j])
  {
    PiecesFree(value);
    var r := FirstOccurrences(Pieces(value), NonEmpty);
    assert forall k :: 0 <= k < |r| ==> r[k] in r;
    r
  }

  /** The trimmed pieces hold no separator and no edge whitespace. */
  lemma PiecesFree(value: string)
    ensures forall t :: t in Pieces(value) ==> NoSeparator(t) && NoEdgeWhitespace(t)
  {
    var split := SplitOnSeparatorRuns(value);
    var pieces := TrimEach(split);
    SplitPiecesFree(value);
    forall k | 0 <= k < |pieces| ensures NoSeparator(pieces[k]) && NoEdgeWhitespace(pieces[k]) {
      var a :| OccursAt(split[k], pieces[k], a);
      NoSeparatorInside(split[k], pieces[k], a);
    }
  }

  /** An input made only of commas and spaces (or nothing) has no tags. */
  lemma ParseTagsOfSeparators(value: string)
    requires forall i :: 0 <= i < |value| ==> IsTagSeparator(value[i])
    ensures ParseTags(value) == []
  {
    SplitOfSeparators(value);
  }

  lemma {:induction false} SplitOfSeparators(s: string)
    requires forall i :: 0 <= i < |s| ==> IsTagSeparator(s[i])
    ensures forall k :: 0 <= k < |SplitOnSeparatorRuns(s)| ==> SplitOnSeparatorRuns(s)[k] == ""
  {
    if s != [] {
      assert SkipSeparators(s[1..]) == [];
    }
  }

  /** The text box's initial value: `(tags ?? []).join(", ")`. */
  function TagInputSeed(tags: Option<seq<string>>): (box: string)
    ensures tags.None? || tags.value == [] ==> box == ""
    ensures tags.Some? && |tags.value| == 1 ==> box == tags.value[0]
    ensures tags.Some? && tags.value != [] ==> tags.value[0] <= box
  {
    Join(if tags.Some? then tags.value else [], ", ")
  }

  /** A run of separators in front of a separator-free start is skipped entirely. */
  lemma SkipSeparatorsTo(run: string, j: string)
    requires forall i :: 0 <= i < |run| ==> IsTagSeparator(run[i])
    requires j == [] || !IsTagSeparator(j[0])
    ensures SkipSeparators(run + j) == j
    decreases |run|
  {
    if run != [] {
      assert (run + j)[1..] == run[1..] + j;
      SkipSeparatorsTo(run[1..], j);
    } else {
      assert run + j == j;
    }
  }

  /** A separator-free prefix only lengthens the first piece. */
  lemma {:induction false} SplitSeparatorFree(t: string, u: string)
    requires NoSeparator(t)
    ensures var r := SplitOnSeparatorRuns(u);
      SplitOnSeparatorRuns(t + u) == [t + r[0]] + r[1..]
    decreases |t|
  {
    var r := SplitOnSeparatorRuns(u);
    if t == [] {
      assert t + u == u;
      assert t + r[0] == r[0];
      assert r == [r[0]] + r[1..];
    } else {
      var rest := SplitOnSeparatorRuns(t[1..] + u);
      calc {
        SplitOnSeparatorRuns(t + u);
        { assert (t + u)[0] == t[0] && (t + u)[1..] == t[1..] + u;
          assert NoSeparator(t[1..]); }
        [[t[0]] + rest[0]] + rest[1..];
        { SplitSeparatorFree(t[1..], u); }
        [[t[0]] + (t[1..] + r[0])] + r[1..];
        { assert [t[0]] + (t[1..] + r[0]) == t + r[0]; }
        [t + r[0]] + r[1..];
      }
    }
  }

  lemma JoinStart(parts: seq<string>, sep: string)
    requires |parts| >= 1 && parts[0] != ""
    ensures Join(parts, sep) != [] && Join(parts, sep)[0] == parts[0][0]
  {
    if |parts| > 1 {
      assert Join(parts, sep) == parts[0] + (sep + Join(parts[1..], sep));
    }
  }

  /** Splitting tags joined by ", " gives the tags back. */
  lemma {:induction false} SplitJoinedTags(tags: seq<string>)
    requires |tags| >= 1
    requires forall k :: 0 <= k < |tags| ==> tags[k] != "" && NoSeparator(tags[k])
    ensures SplitOnSeparatorRuns(Join(tags, ", ")) == tags
    decreases |tags|, 1
  {
    if |tags| == 1 {
      SplitSeparatorFree(tags[0], []);
      assert tags[0] + [] == tags[0];
    } else {
      var j := Join(tags[1..], ", ");
      assert Join(tags, ", ") == tags[0] + (", " + j);
      calc {
        SplitOnSeparatorRuns(Join(tags, ", "));
        { SplitSeparatorFree(tags[0], ", " + j); SplitAfterComma(tags[1..]); }
        [tags[0] + ""] + tags[1..];
        { assert tags[0] + "" == tags[0]; }
        tags;
      }
    }
  }

  /** A ", " in front of a separator-free start yields one empty piece, then the pieces of the rest. */
  lemma SplitAfterSeparator(j: string)
    requires j == [] || !IsTagSeparator(j[0])
    ensures SplitOnSeparatorRuns(", " + j) == [""] + SplitOnSeparatorRuns(j)
  {
    var s := ", " + j;
    assert s[1..] == " " + j;
    SkipSeparatorsTo(" ", j);
  }

  /** The ", " before the next tag ends a piece and starts the next one at that tag. */
  lemma SplitAfterComma(tags: seq<string>)
    requires |tags| >= 1
    requires forall k :: 0 <= k < |tags| ==> tags[k] != "" && NoSeparator(tags[k])
    ensures SplitOnSeparatorRuns(", " + Join(tags, ", ")) == [""] + tags
    decreases |tags|, 2
  {
    JoinStart(tags, ", ");
    SplitAfterSeparator(Join(tags, ", "));
    SplitJoinedTags(tags);
  }

  /**
    Round trip of the form: seeding the box with well-formed, distinct tags and
    parsing it again yields exactly those tags, in the same order.
  */
  lemma ParseTagsOfSeed(tags: seq<string>)
    requires forall k :: 0 <= k < |tags| ==> WellFormedTag(tags[k])
    requires NoDup(tags)
    ensures ParseTags(TagInputSeed(Some(tags))) == tags
  {
    if tags == [] {
      ParseTagsOfSeparators("");
    } else {
      SplitJoinedTags(tags);
      assert TrimEach(tags) == tags;
      FirstOccurrencesOfDistinct(tags, NonEmpty);
    }
  }

  /** Parsing what a parse produced, once joined back into the box, changes nothing. */
  lemma ParseTagsIdempotent(value: string)
    ensures ParseTags(TagInputSeed(Some(ParseTags(value)))) == ParseTags(value)
  {
    ParseTagsOfSeed(ParseTags(value));
  }

  /** A bookmark without tags seeds an empty box, which parses to no tags. */
  lemma ParseTagsOfNoTags()
    ensures TagInputSeed(None) == ""
    ensures ParseTags(TagInputSeed(None)) == []
  {
    ParseTagsOfSeparators("");
  }
}
