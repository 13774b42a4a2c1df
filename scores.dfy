/** The high-score table: entries `name:score`, one per line, kept highest score first.
    The file is given as its list of lines; reading and writing it is not modelled. */
module Scores {
  import opened JavaInt
  import opened JavaText
  import opened Wrappers

  datatype PlayerScore = PlayerScore(name: string, score: int)

  const Separator: char := ':'

  /** `compareTo`: `Integer.compare(other.score, this.score)`, so the higher score
      comes first. */
  function CompareTo(a: PlayerScore, b: PlayerScore): (r: int)
    ensures r < 0 <==> a.score > b.score
    ensures r == 0 <==> a.score == b.score
    ensures r > 0 <==> a.score < b.score
    ensures -1 <= r <= 1
  {
    if b.score < a.score then -1 else if b.score == a.score then 0 else 1
  }

  lemma CompareToAntisymmetric(a: PlayerScore, b: PlayerScore)
    ensures CompareTo(a, b) == -CompareTo(b, a)
  {
  }

  /** `toString`: the name, a colon, the score in decimal. */
  function Format(p: PlayerScore): (line: string)
    ensures |line| > |p.name| && line[..|p.name|] == p.name && line[|p.name|] == Separator
  {
    p.name + [Separator] + IntToString(p.score)
  }

  /** One line of the file as `loadScores` reads it: split on ':', exactly two pieces,
      the second an int; any other line is skipped. */
  function ParseLine(line: string): (r: Option<PlayerScore>)
    ensures r.Some? ==> Separator !in r.value.name && IsInt32(r.value.score)
    ensures Separator !in line ==> r == None
    ensures r.Some? <==> |Split(line, Separator)| == 2 && ParseInt(Split(line, Separator)[1]).Some?
    ensures r.Some? ==> Split(line, Separator) == [r.value.name, Split(line, Separator)[1]]
    ensures r.Some? ==> ParseInt(Split(line, Separator)[1]) == Some(r.value.score)
  {
    var parts := Split(line, Separator);
    if |parts| != 2 then None
    else match ParseInt(parts[1]) {
      case Some(v) => Some(PlayerScore(parts[0], v))
      case None => None
    }
  }

  /** No ':' in the decimal text of an int. */
  lemma NoSeparatorInNumber(n: int)
    ensures Separator !in IntToString(n)
  {
    var s := IntToString(n);
    forall k | 0 <= k < |s| ensures s[k] != Separator {
      if n < 0 && k > 0 {
        assert s[k] == s[1..][k - 1];
      }
    }
  }

  /** Formatting then parsing gives the entry back, whenever its name has no ':'. */
  lemma ParseFormat(p: PlayerScore)
    requires Separator !in p.name && IsInt32(p.score)
    ensures ParseLine(Format(p)) == Some(p)
  {
    var digits := IntToString(p.score);
    NoSeparatorInNumber(p.score);
    SplitAllPair(p.name, digits, Separator);
    assert Format(p) == p.name + [Separator] + digits;
    assert Separator in Format(p) by { assert Format(p)[|p.name|] == Separator; }
    assert Split(Format(p), Separator) == [p.name, digits];
    ParseIntToString(p.score);
  }

  /** A trailing ':' is ignored: `split` drops the empty piece after it. */
  lemma TrailingSeparatorIgnored(p: PlayerScore)
    requires Separator !in p.name && IsInt32(p.score)
    ensures ParseLine(Format(p) + [Separator]) == Some(p)
  {
    var digits := IntToString(p.score);
    var line := Format(p);
    NoSeparatorInNumber(p.score);
    SplitAllPair(p.name, digits, Separator);
    SplitAllConcat(line, "", Separator);
    assert line + [Separator] == line + [Separator] + "";
    assert line == p.name + [Separator] + digits;
    assert SplitAll(line + [Separator], Separator) == [p.name, digits, ""];
    assert Separator in line + [Separator] by { assert (line + [Separator])[|line|] == Separator; }
    assert |digits| >= 1;
    assert DropTrailingEmpty([p.name, digits, ""]) == DropTrailingEmpty([p.name, digits, ""][..2]);
    assert [p.name, digits, ""][..2] == [p.name, digits];
    ParseIntToString(p.score);
  }

  /** Splitting at one separator splits the two sides independently. */
  lemma SplitAllCons(c: char, t: string, d: char)
    ensures SplitAll([c] + t, d) ==
      if c == d then [""] + SplitAll(t, d) else [[c] + SplitAll(t, d)[0]] + SplitAll(t, d)[1..]
  {
    assert ([c] + t)[0] == c && ([c] + t)[1..] == t;
  }

  /** One character in front of a string that already splits as two halves. */
  lemma ConsOntoConcat(c: char, t: string, u: string, rb: seq<string>, d: char)
    requires SplitAll(u, d) == SplitAll(t, d) + rb
    ensures SplitAll([c] + u, d) == SplitAll([c] + t, d) + rb
  {
    SplitAllCons(c, u, d);
    SplitAllCons(c, t, d);
    if c == d {
      SeparatorOntoConcat(SplitAll(t, d), rb);
    } else {
      JoinedOntoConcat([c], SplitAll(t, d), rb);
    }
  }

  lemma SeparatorOntoConcat(rt: seq<string>, rb: seq<string>)
    ensures [""] + (rt + rb) == ([""] + rt) + rb
  {
  }

  lemma JoinedOntoConcat(h: string, rt: seq<string>, rb: seq<string>)
    requires |rt| >= 1
    ensures [h + (rt + rb)[0]] + (rt + rb)[1..] == ([h + rt[0]] + rt[1..]) + rb
  {
    assert (rt + rb)[0] == rt[0];
    assert (rt + rb)[1..] == rt[1..] + rb;
  }

  lemma {:induction false} SplitAllConcat(a: string, b: string, d: char)
    ensures SplitAll(a + [d] + b, d) == SplitAll(a, d) + SplitAll(b, d)
  {
    if a == [] {
      assert a + [d] + b == [d] + b;
      SplitAllCons(d, b, d);
    } else {
      var c, t := a[0], a[1..];
      assert a == [c] + t;
      assert a + [d] + b == [c] + (t + [d] + b);
      SplitAllConcat(t, b, d);
      ConsOntoConcat(c, t, t + [d] + b, SplitAll(b, d), d);
    }
  }

  /** A string holding the separator splits into at least two pieces. */
  lemma {:induction false} SplitAllAtLeastTwo(s: string, d: char)
    requires d in s
    ensures |SplitAll(s, d)| >= 2
  {
    if s[0] != d {
      assert d in s[1..] by {
        var k :| 0 <= k < |s| && s[k] == d;
        assert s[1..][k - 1] == d;
      }
      SplitAllAtLeastTwo(s[1..], d);
    }
  }

  /** A name holding ':' is written out but never read back: its line has more than two
      pieces. */
  lemma ColonInNameIsLost(p: PlayerScore)
    requires Separator in p.name
    ensures ParseLine(Format(p)) == None
  {
    var digits := IntToString(p.score);
    NoSeparatorInNumber(p.score);
    SplitAllConcat(p.name, digits, Separator);
    SplitAllAtLeastTwo(p.name, Separator);
    var parts := SplitAll(Format(p), Separator);
    assert Format(p) == p.name + [Separator] + digits;
    assert parts[|parts| - 1] == digits;
    assert Separator in Format(p) by { assert Format(p)[|p.name|] == Separator; }
    assert Split(Format(p), Separator) == parts;
  }

  // ------------------------------------------------------------ Collections.sort

  /** Highest score first. */
  predicate Descending(s: seq<PlayerScore>) {
    forall i, j | 0 <= i < j < |s| :: s[i].score >= s[j].score
  }

  /** The comparator's order is the descending order of scores. */
  lemma DescendingByCompare(s: seq<PlayerScore>)
    ensures Descending(s) <==> forall i, j | 0 <= i < j < |s| :: CompareTo(s[i], s[j]) <= 0
  {
  }

  /** Places `p` after every entry scoring at least as much. */
  function Insert(p: PlayerScore, xs: seq<PlayerScore>): (r: seq<PlayerScore>)
    ensures |r| == |xs| + 1
  {
    if xs == [] then [p]
    else if xs[0].score >= p.score then [xs[0]] + Insert(p, xs[1..])
    else [p] + xs
  }

  /** Every entry of the result is the new one or an old one. */
  lemma {:induction false} InsertFrom(p: PlayerScore, xs: seq<PlayerScore>)
    ensures forall q | q in Insert(p, xs) :: q == p || q in xs
  {
    if xs != [] && xs[0].score >= p.score {
      InsertFrom(p, xs[1..]);
      assert xs == [xs[0]] + xs[1..];
    }
  }

  /** Inserting adds exactly the one entry. */
  lemma {:induction false} InsertAddsOne(p: PlayerScore, xs: seq<PlayerScore>)
    ensures multiset(Insert(p, xs)) == multiset(xs) + multiset{p}
  {
    if xs != [] {
      assert xs == [xs[0]] + xs[1..];
      if xs[0].score >= p.score {
        InsertAddsOne(p, xs[1..]);
      }
    }
  }

  /** Inserting into a list that is highest first keeps it so. */
  lemma {:induction false} InsertKeepsOrder(p: PlayerScore, xs: seq<PlayerScore>)
    requires Descending(xs)
    ensures Descending(Insert(p, xs))
  {
    if xs != [] && xs[0].score >= p.score {
      var rest := Insert(p, xs[1..]);
      InsertKeepsOrder(p, xs[1..]);
      InsertFrom(p, xs[1..]);
      forall j | 0 <= j < |rest| ensures xs[0].score >= rest[j].score {
        if rest[j] != p {
          assert rest[j] in rest;
          var k :| 0 <= k < |xs[1..]| && xs[1..][k] == rest[j];
          assert xs[k + 1] == rest[j];
        }
      }
    }
  }

  /** `Collections.sort` with `compareTo`: a stable sort, here by insertion from the
      front of the list. */
  function Sort(s: seq<PlayerScore>): (r: seq<PlayerScore>)
    ensures Descending(r) && multiset(r) == multiset(s)
  {
    if s == [] then []
    else
      var init, last := s[..|s| - 1], s[|s| - 1];
      assert s == init + [last];
      InsertKeepsOrder(last, Sort(init));
      InsertAddsOne(last, Sort(init));
      Insert(last, Sort(init))
  }

  /** Sorting a sorted list with one entry appended inserts that entry. */
  lemma SortAppend(xs: seq<PlayerScore>, p: PlayerScore)
    requires Descending(xs)
    ensures Sort(xs + [p]) == Insert(p, xs)
  {
    assert (xs + [p])[..|xs|] == xs;
    SortOfSorted(xs);
  }

  /** The entries with score `v`, in order. */
  function WithScore(s: seq<PlayerScore>, v: int): seq<PlayerScore> {
    if s == [] then []
    else (if s[0].score == v then [s[0]] else []) + WithScore(s[1..], v)
  }

  lemma WithScoreCons(x: PlayerScore, s: seq<PlayerScore>, v: int)
    ensures WithScore([x] + s, v) == (if x.score == v then [x] else []) + WithScore(s, v)
  {
    assert ([x] + s)[0] == x && ([x] + s)[1..] == s;
  }

  lemma {:induction false} WithScoreAppend(a: seq<PlayerScore>, b: seq<PlayerScore>, v: int)
    ensures WithScore(a + b, v) == WithScore(a, v) + WithScore(b, v)
  {
    if a != [] {
      var x, t := a[0], a[1..];
      assert a == [x] + t;
      assert a + b == [x] + (t + b);
      WithScoreAppend(t, b, v);
      WithScoreCons(x, t + b, v);
      WithScoreCons(x, t, v);
      var h := if x.score == v then [x] else [];
      assert h + (WithScore(t, v) + WithScore(b, v)) == (h + WithScore(t, v)) + WithScore(b, v);
    } else {
      assert a + b == b;
    }
  }

  lemma {:induction false} WithScoreNone(s: seq<PlayerScore>, v: int)
    requires forall i | 0 <= i < |s| :: s[i].score != v
    ensures WithScore(s, v) == []
  {
    if s != [] {
      WithScoreNone(s[1..], v);
    }
  }

  lemma {:induction false} InsertWithScore(p: PlayerScore, xs: seq<PlayerScore>, v: int)
    requires Descending(xs)
    ensures WithScore(Insert(p, xs), v) == WithScore(xs, v) + (if p.score == v then [p] else [])
  {
    if xs == [] {
      WithScoreCons(p, [], v);
      assert [p] == [p] + [];
    } else if xs[0].score >= p.score {
      var x, t := xs[0], xs[1..];
      InsertBehind(p, xs);
      InsertWithScore(p, t, v);
      ConsWithScore(x, t, Insert(p, t), if p.score == v then [p] else [], v);
    } else {
      assert Insert(p, xs) == [p] + xs;
      InsertFrontWithScore(p, xs, v);
    }
  }

  /** An entry scoring more than the head of a descending list goes in front of it. */
  lemma InsertFrontWithScore(p: PlayerScore, xs: seq<PlayerScore>, v: int)
    requires Descending(xs) && xs != [] && xs[0].score < p.score
    ensures WithScore([p] + xs, v) == WithScore(xs, v) + (if p.score == v then [p] else [])
  {
    assert forall i | 0 <= i < |xs| :: xs[i].score < p.score by {
      forall i | 0 <= i < |xs| ensures xs[i].score < p.score {
        if i > 0 { assert xs[0].score >= xs[i].score; }
      }
    }
    WithScoreNone(xs, p.score);
    WithScoreCons(p, xs, v);
  }

  /** An entry scoring at most the head goes behind it. */
  lemma InsertBehind(p: PlayerScore, xs: seq<PlayerScore>)
    requires xs != [] && xs[0].score >= p.score
    ensures xs == [xs[0]] + xs[1..]
    ensures Insert(p, xs) == [xs[0]] + Insert(p, xs[1..])
  {
  }

  /** Putting the same entry in front of two lists with the same `v`-entries up to a
      common tail keeps them so. */
  lemma ConsWithScore(x: PlayerScore, t: seq<PlayerScore>, r: seq<PlayerScore>, tail: seq<PlayerScore>, v: int)
    requires WithScore(r, v) == WithScore(t, v) + tail
    ensures WithScore([x] + r, v) == WithScore([x] + t, v) + tail
  {
    var h := if x.score == v then [x] else [];
    WithScoreCons(x, t, v);
    WithScoreCons(x, r, v);
    assert h + (WithScore(t, v) + tail) == (h + WithScore(t, v)) + tail;
  }

  /** The sort is stable: entries with equal scores keep their order. */
  lemma {:induction false} SortIsStable(s: seq<PlayerScore>, v: int)
    ensures WithScore(Sort(s), v) == WithScore(s, v)
  {
    if s != [] {
      var init, last := s[..|s| - 1], s[|s| - 1];
      assert s == init + [last];
      assert Sort(s) == Insert(last, Sort(init));
      SortIsStable(init, v);
      InsertWithScore(last, Sort(init), v);
      WithScoreAppend(init, [last], v);
      WithScoreCons(last, [], v);
      assert [last] == [last] + [];
    }
  }

  lemma {:induction false} InsertAtEnd(p: PlayerScore, xs: seq<PlayerScore>)
    requires forall i | 0 <= i < |xs| :: xs[i].score >= p.score
    ensures Insert(p, xs) == xs + [p]
  {
    if xs != [] {
      InsertAtEnd(p, xs[1..]);
    }
  }

  /** A list already highest first is left as it is. */
  lemma {:induction false} SortOfSorted(s: seq<PlayerScore>)
    requires Descending(s)
    ensures Sort(s) == s
  {
    if s != [] {
      var init := s[..|s| - 1];
      SortOfSorted(init);
      InsertAtEnd(s[|s| - 1], init);
    }
  }

  // ------------------------------------------------------------ the file

  /** Every line that parses, in file order. */
  function Parsed(lines: seq<string>): (r: seq<PlayerScore>)
    ensures |r| <= |lines|
    ensures forall q | q in r :: Separator !in q.name && IsInt32(q.score)
  {
    if lines == [] then []
    else
      var init := Parsed(lines[..|lines| - 1]);
      match ParseLine(lines[|lines| - 1]) {
        case Some(q) => init + [q]
        case None => init
      }
  }

  /** One more line that parses adds its entry at the end. */
  lemma ParsedSnoc(lines: seq<string>, line: string, q: PlayerScore)
    requires ParseLine(line) == Some(q)
    ensures Parsed(lines + [line]) == Parsed(lines) + [q]
  {
    assert (lines + [line])[..|lines|] == lines;
  }

  /** Every entry formatted, one line each. */
  function FormatAll(s: seq<PlayerScore>): seq<string> {
    seq(|s|, i requires 0 <= i < |s| => Format(s[i]))
  }

  lemma FormatAllSnoc(s: seq<PlayerScore>, p: PlayerScore)
    ensures FormatAll(s + [p]) == FormatAll(s) + [Format(p)]
  {
  }

  /** Writing entries out and reading them back gives the same entries. */
  lemma {:induction false} ParsedFormatAll(s: seq<PlayerScore>)
    requires forall i | 0 <= i < |s| :: Separator !in s[i].name && IsInt32(s[i].score)
    ensures Parsed(FormatAll(s)) == s
  {
    if s != [] {
      var init, last := s[..|s| - 1], s[|s| - 1];
      assert s == init + [last];
      FormatAllSnoc(init, last);
      ParsedFormatAll(init);
      ParseFormat(last);
      ParsedSnoc(FormatAll(init), Format(last), last);
    }
  }

  /** `loadScores`: the lines that parse, sorted highest first (a missing file has no
      lines). */
  method LoadScores(lines: seq<string>) returns (scores: seq<PlayerScore>)
    ensures scores == Sort(Parsed(lines))
  {
    scores := [];
    var i := 0;
    while i < |lines|
      invariant i <= |lines|
      invariant scores == Parsed(lines[..i])
    {
      assert lines[..i + 1][..i] == lines[..i];
      var entry := ParseLine(lines[i]);
      if entry.Some? {
        scores := scores + [entry.value];
      }
      i := i + 1;
    }
    assert lines[..i] == lines;
    scores := Sort(scores);
  }

  /** `saveScore(name, score)`: the lines written back, that is the loaded entries with
      the new one placed after every entry scoring at least as much. */
  method SaveScore(lines: seq<string>, name: string, score: int) returns (written: seq<string>)
    requires IsInt32(score)
    ensures written == FormatAll(Insert(PlayerScore(name, score), Sort(Parsed(lines))))
    ensures |written| == |Parsed(lines)| + 1
  {
    var scores := LoadScores(lines);
    var entry := PlayerScore(name, score);
    SortAppend(scores, entry);
    scores := Sort(scores + [entry]);
    written := WriteLines(scores);
  }

  /** The writer loop: one `toString` line per entry, in order. */
  method WriteLines(scores: seq<PlayerScore>) returns (written: seq<string>)
    ensures written == FormatAll(scores)
  {
    written := [];
    for k := 0 to |scores|
      invariant written == FormatAll(scores[..k])
    {
      assert scores[..k + 1] == scores[..k] + [scores[k]];
      FormatAllSnoc(scores[..k], scores[k]);
      written := written + [Format(scores[k])];
    }
    assert scores[..|scores|] == scores;
  }

  /** Reading a saved file back gives the saved entries, as long as the new name has
      no ':'. */
  lemma SavedScoresReload(lines: seq<string>, name: string, score: int)
    requires IsInt32(score) && Separator !in name
    ensures Sort(Parsed(FormatAll(Insert(PlayerScore(name, score), Sort(Parsed(lines)))))) ==
      Insert(PlayerScore(name, score), Sort(Parsed(lines)))
  {
    var p, sorted := PlayerScore(name, score), Sort(Parsed(lines));
    var saved := Insert(p, sorted);
    InsertFrom(p, sorted);
    forall i | 0 <= i < |saved| ensures Separator !in saved[i].name && IsInt32(saved[i].score) {
      if saved[i] != p {
        assert saved[i] in multiset(sorted);
        assert saved[i] in Parsed(lines);
      }
    }
    InsertKeepsOrder(p, sorted);
    ParsedFormatAll(saved);
    SortOfSorted(saved);
  }

  /** `getTopScores(count)`: the first `min(count, size)` loaded entries. A negative
      count makes `subList` throw, so the caller must not pass one. */
  method GetTopScores(lines: seq<string>, count: int) returns (top: seq<PlayerScore>)
    requires count >= 0
    ensures |top| == if count < |Parsed(lines)| then count else |Parsed(lines)|
    ensures top == Sort(Parsed(lines))[..|top|]
    ensures forall i, j | 0 <= i < |top| <= j < |Parsed(lines)| :: top[i].score >= Sort(Parsed(lines))[j].score
  {
    var all := LoadScores(lines);
    var n := if count < |all| then count else |all|;
    top := all[..n];
  }
}
