/** splitNodeByStatements (main.js:148-171): a text value holding several statements is cut
    before each later `::foreach`, `::if` or `::set`, so that every piece holds one statement at
    its start; the converter re-joins the converted pieces (main.js:140). */
module Split {
  import opened JsStrings
  import opened Patterns

  /** The statement keyword a piece may start with. */
  predicate StartsWithStatement(t: string) {
    StartsWith(t, "::foreach") || StartsWith(t, "::if") || StartsWith(t, "::set")
  }

  lemma StatementKeywordShift(s: string, k: nat, j: nat)
    requires k <= |s|
    ensures StatementKeyword(s[k..], j) == StatementKeyword(s, k + j)
  {
    var y := s[k..];
    forall lit: string | true
      ensures ContainsAt(y, j, lit) <==> ContainsAt(s, k + j, lit)
    {
      if j + |lit| <= |y| {
        assert y[j..j + |lit|] == s[k + j..k + j + |lit|];
      }
    }
  }

  /** The expression of main.js:153 matches at the start of the value or nowhere: a later start
      would need a keyword after it, and that keyword also follows the first character. */
  lemma FindStatementAhead(s: string)
    ensures Find(StatementAhead, s)
         == match NextStatement(s, 1)
            case None => None
            case Some(k) => Some(Match(0, |s|, [StatementKeyword(s, k).value, s[k..]]))
  {
    match NextStatement(s, 1)
    case Some(k) =>
      assert s[0..] == s;
      assert MatchAt(StatementAhead, s, 0) == Some(Match(0, |s|, [StatementKeyword(s, k).value, s[k..]]));
      FindIs(StatementAhead, s, 0);
    case None =>
      forall i | 0 <= i <= |s|
        ensures MatchAt(StatementAhead, s, i).None?
      {
        var y := s[i..];
        forall j | 1 <= j
          ensures StatementKeyword(y, j).None?
        {
          StatementKeywordShift(s, i, j);
        }
      }
      SkipNoMatch(StatementAhead, s, 0, |s|);
  }

  /** `split = value.match(...)` then `split = split && split[2]` (main.js:153-155 and 159-160):
      the rest of the value from its first statement keyword after the first character. */
  function NextSplit(s: string): (r: Option<string>)
    ensures r.Some? ==> 0 < |r.value| < |s| && r.value == s[|s| - |r.value|..]
  {
    FindStatementAhead(s);
    match Find(StatementAhead, s)
    case None => None
    case Some(m) => if Group(m, 2) == "" then None else Some(Group(m, 2))
  }

  /** What NextSplit finds: the suffix at the first keyword after position 0, and nothing when
      there is no such keyword. */
  lemma NextSplitIs(s: string)
    ensures NextSplit(s).None? <==> NextStatement(s, 1).None?
    ensures NextStatement(s, 1).Some? ==> NextSplit(s) == Some(s[NextStatement(s, 1).value..])
  {
    FindStatementAhead(s);
  }

  /** The rest of the value from its first statement keyword after the first character. */
  function Rest(s: string): (r: Option<string>)
    ensures r.Some? ==> 0 < |r.value| < |s| && r.value == s[|s| - |r.value|..]
  {
    match NextStatement(s, 1)
    case None => None
    case Some(k) => Some(s[k..])
  }

  /** The regex split of main.js:153-160 finds exactly that rest. */
  lemma NextSplitRest(s: string)
    ensures NextSplit(s) == Rest(s)
  {
    NextSplitIs(s);
  }

  /** A value without colons holds no statement keyword. */
  lemma NoColonNoStatement(v: string)
    requires NoColon(v)
    ensures NextStatement(v, 1).None?
  {
    forall j | 1 <= j
      ensures StatementKeyword(v, j).None?
    {
      KeywordNeedsColons(v, j);
    }
  }

  /** A value with no statement keyword after its first character is one piece, itself. */
  lemma SplitWithoutStatement(v: string)
    requires v != "" && NextStatement(v, 1).None?
    ensures SplitValue(v) == [v]
  {
    assert Suffixes(v) == [v];
  }

  /** The value and the successive rests the loop of main.js:156-161 produces. */
  function Suffixes(v: string): (r: seq<string>)
    ensures |r| >= 1 && r[0] == v
    decreases |v|
  {
    match Rest(v)
    case None => [v]
    case Some(t) => [v] + Suffixes(t)
  }

  /** The piece values after main.js:163-169: each but the last loses the first occurrence of its
      successor's text, the last is kept whole. */
  function Pieces(sfx: seq<string>): (r: seq<string>)
    ensures |r| == |sfx|
  {
    seq(|sfx|, i requires 0 <= i < |sfx| =>
      if i == |sfx| - 1 then sfx[i] else ReplaceFirstLit(sfx[i], sfx[i + 1], ""))
  }

  /** splitNodeByStatements on a node value: no pieces at all for an empty value (or a node
      without a value, main.js:149-151), else one piece per suffix. */
  function SplitValue(v: string): (r: seq<string>)
    ensures r == [] <==> v == ""
  {
    if v == "" then [] else Pieces(Suffixes(v))
  }

  /** The `reduce` of main.js:140: the piece values joined in order. */
  function Concat(parts: seq<string>): string {
    if parts == [] then "" else parts[0] + Concat(parts[1..])
  }

  lemma KeywordNeedsColons(s: string, j: nat)
    ensures StatementKeyword(s, j).Some? ==> j + 1 < |s| && s[j] == ':' && s[j + 1] == ':'
  {
    if StatementKeyword(s, j).Some? {
      var w := s[j..j + 4];
      assert w[0] == s[j] && w[1] == s[j + 1];
    }
  }

  /** A statement keyword at k of v starts the rest v[k..]. */
  lemma KeywordStarts(v: string, k: nat)
    requires k <= |v| && StatementKeyword(v, k).Some?
    ensures StartsWithStatement(v[k..])
  {
    if ContainsAt(v, k, "::foreach") {
      assert v[k..][..9] == v[k..k + 9];
    } else if ContainsAt(v, k, "::if") {
      assert v[k..][..4] == v[k..k + 4];
    } else {
      assert v[k..][..5] == v[k..k + 5];
    }
  }

  /** t is what remains of s after at least its first character. */
  predicate ProperSuffix(t: string, s: string) {
    |t| < |s| && t == s[|s| - |t|..]
  }

  /** Every entry after the first is a proper suffix of the one before it. */
  predicate ProperChain(r: seq<string>) {
    forall i :: 0 < i < |r| ==> ProperSuffix(r[i], r[i - 1])
  }

  /** Every later suffix is a proper suffix of the one before it. */
  lemma {:induction false} SuffixesChain(v: string)
    ensures ProperChain(Suffixes(v))
    decreases |v|
  {
    match Rest(v)
    case None =>
    case Some(t) =>
      SuffixesChain(t);
      var r := Suffixes(v);
      assert r[1..] == Suffixes(t);
      assert ProperSuffix(r[1], r[0]);
      forall i | 1 < i < |r|
        ensures ProperSuffix(r[i], r[i - 1])
      {
        assert r[i] == Suffixes(t)[i - 1] && r[i - 1] == Suffixes(t)[i - 2];
      }
  }

  /** Every later suffix starts with a statement keyword. */
  lemma {:induction false} SuffixesStart(v: string)
    ensures var r := Suffixes(v); forall i :: 0 < i < |r| ==> StartsWithStatement(r[i])
    decreases |v|
  {
    match Rest(v)
    case None =>
    case Some(t) =>
      SuffixesStart(t);
      var r := Suffixes(v);
      assert r[1..] == Suffixes(t);
      KeywordStarts(v, NextStatement(v, 1).value);
      forall i | 1 < i < |r|
        ensures StartsWithStatement(r[i])
      {
        assert r[i] == Suffixes(t)[i - 1];
      }
  }

  /** Each entry of r was split off at the first keyword after its predecessor's first character,
      and the last entry has no keyword after its first character. */
  ghost predicate SplitAtKeywords(r: seq<string>)
    decreases |r|
  {
    && |r| >= 1
    && if |r| == 1 then NextStatement(r[0], 1).None?
       else NextStatement(r[0], 1) == Some(|r[0]| - |r[1]|) && SplitAtKeywords(r[1..])
  }

  /** The successive rests are split off at keywords, the last one holds none. */
  lemma {:induction false} SuffixesAtKeyword(v: string)
    ensures SplitAtKeywords(Suffixes(v))
    decreases |v|
  {
    match Rest(v)
    case None =>
      assert Suffixes(v) == [v];
    case Some(t) =>
      SuffixesAtKeyword(t);
      RestAtKeyword(v);
      var q := Suffixes(t);
      assert Suffixes(v) == [v] + q;
      assert ([v] + q)[1..] == q;
  }

  /** A rest starts at the first keyword after the value's first character. */
  lemma RestAtKeyword(v: string)
    requires Rest(v).Some?
    ensures NextStatement(v, 1) == Some(|v| - |Rest(v).value|)
  {
  }

  /** Every suffix is a suffix of the value itself, and pieces after the first are proper ones. */
  lemma SuffixesOfValue(v: string)
    ensures forall i :: 0 <= i < |Suffixes(v)| ==>
      var t := Suffixes(v)[i]; |t| <= |v| && t == v[|v| - |t|..] && (i > 0 ==> |t| < |v|)
  {
    var r := Suffixes(v);
    SuffixesChain(v);
    forall i | 0 <= i < |r|
      ensures |r[i]| <= |v| && r[i] == v[|v| - |r[i]|..] && (i > 0 ==> |r[i]| < |v|)
    {
      ChainAt(r, i);
    }
  }

  /** In a list where every entry is a proper suffix of the one before, every entry is a suffix
      of the first, and a proper one after it. */
  lemma {:induction false} ChainAt(r: seq<string>, i: nat)
    requires ProperChain(r)
    requires i < |r|
    ensures |r[i]| <= |r[0]| && r[i] == r[0][|r[0]| - |r[i]|..] && (i > 0 ==> |r[i]| < |r[0]|)
    decreases i
  {
    if i == 0 {
      assert r[0][|r[0]| - |r[0]|..] == r[0];
    } else if i == 1 {
      assert ProperSuffix(r[1], r[0]);
    } else {
      ChainAt(r, i - 1);
      assert ProperSuffix(r[i], r[i - 1]);
      SuffixOfSuffix(r[0], r[i - 1], r[i]);
    }
  }

  lemma SuffixOfSuffix(v: string, t: string, u: string)
    requires |t| < |v| && t == v[|v| - |t|..] && |u| <= |t| && u == t[|t| - |u|..]
    ensures u == v[|v| - |u|..]
  {
    assert v[|v| - |u|..] == v[|v| - |t|..][|t| - |u|..];
  }

  /** The pieces of main.js:163-169 re-join to the original value exactly when each suffix's
      first occurrence in its predecessor is where it was split off. A suffix's text may occur
      earlier too (`::if a ::if a`), and then the piece loses that earlier occurrence instead. */
  predicate SplitCleanly(sfx: seq<string>) {
    forall i :: 0 <= i < |sfx| - 1 ==>
      |sfx[i + 1]| <= |sfx[i]| && IndexOf(sfx[i], sfx[i + 1]) == Some(|sfx[i]| - |sfx[i + 1]|)
  }

  /** Removing the first occurrence of a text that first occurs at the end cuts it off. */
  lemma RemoveFirstAtEnd(s: string, t: string)
    requires |t| <= |s| && IndexOf(s, t) == Some(|s| - |t|)
    ensures ReplaceFirstLit(s, t, "") == s[..|s| - |t|]
  {
    var i := |s| - |t|;
    assert Substitute("", [], t, s[..i], s[i + |t|..]) == "";
    assert s[i + |t|..] == [];
  }

  lemma {:induction false} ConcatPieces(sfx: seq<string>)
    requires sfx != [] && SplitCleanly(sfx)
    ensures Concat(Pieces(sfx)) == sfx[0]
    decreases |sfx|
  {
    var p := Pieces(sfx);
    if |sfx| > 1 {
      var rest := sfx[1..];
      SplitCleanlyTail(sfx);
      ConcatPieces(rest);
      PiecesTail(sfx);
      PieceHead(sfx);
      assert Concat(p) == p[0] + Concat(p[1..]);
    } else {
      assert p == [sfx[0]];
      assert Concat(p) == sfx[0] + Concat([]);
    }
  }

  /** The first piece followed by the second suffix is the first suffix. */
  lemma PieceHead(sfx: seq<string>)
    requires |sfx| > 1 && SplitCleanly(sfx)
    ensures Pieces(sfx)[0] + sfx[1] == sfx[0]
  {
    var s, t := sfx[0], sfx[1];
    FirstPiece(sfx);
    RemoveFirstAtEnd(s, t);
    CutAtEnd(s, t);
  }

  lemma FirstPiece(sfx: seq<string>)
    requires |sfx| > 1
    ensures Pieces(sfx)[0] == ReplaceFirstLit(sfx[0], sfx[1], "")
  {
  }

  /** A text that first occurs at the end of s is what follows s without it. */
  lemma CutAtEnd(s: string, t: string)
    requires |t| <= |s| && IndexOf(s, t) == Some(|s| - |t|)
    ensures s[..|s| - |t|] + t == s
  {
    assert ContainsAt(s, |s| - |t|, t);
    assert s[|s| - |t|..] == t;
  }

  lemma SplitCleanlyTail(sfx: seq<string>)
    requires |sfx| > 1 && SplitCleanly(sfx)
    ensures SplitCleanly(sfx[1..])
  {
    var rest := sfx[1..];
    forall i | 0 <= i < |rest| - 1
      ensures |rest[i + 1]| <= |rest[i]| && IndexOf(rest[i], rest[i + 1]) == Some(|rest[i]| - |rest[i + 1]|)
    {
      assert rest[i] == sfx[i + 1] && rest[i + 1] == sfx[i + 2];
    }
  }

  /** The pieces of a list of suffixes are the first piece followed by the pieces of the rest. */
  lemma PiecesTail(sfx: seq<string>)
    requires |sfx| > 1
    ensures Pieces(sfx)[0] == ReplaceFirstLit(sfx[0], sfx[1], "")
    ensures Pieces(sfx)[1..] == Pieces(sfx[1..])
  {
    var p, q := Pieces(sfx), Pieces(sfx[1..]);
    forall i | 0 <= i < |q|
      ensures p[1..][i] == q[i]
    {
      assert p[1..][i] == p[i + 1];
    }
  }

  /** Re-joining the pieces gives back the value (main.js:140), provided every suffix first occurs
      in its predecessor where it was split off. */
  lemma SplitRejoins(v: string)
    requires v != "" && SplitCleanly(Suffixes(v))
    ensures Concat(SplitValue(v)) == v
  {
    ConcatPieces(Suffixes(v));
  }

  lemma ExampleSuffixes()
    ensures Suffixes("::if a ::if a") == ["::if a ::if a", "::if a"]
  {
    var v := "::if a ::if a";
    var t := "::if a";
    assert StatementKeyword(v, 7) == Some("if") by {
      assert v[7..11] == "::if";
    }
    forall j | 1 <= j < 7
      ensures StatementKeyword(v, j).None?
    {
      KeywordNeedsColons(v, j);
    }
    assert NextStatement(v, 1) == Some(7);
    assert v[7..] == t;
    forall j | 1 <= j
      ensures StatementKeyword(t, j).None?
    {
      KeywordNeedsColons(t, j);
    }
    assert NextStatement(t, 1).None?;
  }

  lemma ExamplePiece()
    ensures ReplaceFirstLit("::if a ::if a", "::if a", "") == " ::if a"
  {
    var v := "::if a ::if a";
    var t := "::if a";
    assert ContainsAt(v, 0, t);
    assert IndexOf(v, t) == Some(0);
    assert v[6..] == " ::if a";
  }

  /** When a later piece's text also occurs earlier in its predecessor, the replace of
      main.js:167 removes the earlier copy, and the re-joined value differs from the original. */
  lemma SplitLosesEarlierCopy()
    ensures SplitValue("::if a ::if a") == [" ::if a", "::if a"]
    ensures Concat(SplitValue("::if a ::if a")) != "::if a ::if a"
  {
    ExampleSuffixes();
    ExamplePiece();
    var p := SplitValue("::if a ::if a");
    assert p == Pieces(["::if a ::if a", "::if a"]);
    assert p[0] == " ::if a" && p[1] == "::if a";
    assert Concat(p) == " ::if a" + Concat(p[1..]);
    assert Concat(p)[0] == ' ';
  }
}
