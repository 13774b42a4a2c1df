/** A quiz question read from a line `<num>) <question> - <answer>[ or <answer2>]`, and
    the answer check, which compares answers after trimming and lower-casing them. A Java
    `null` string is `None`. */
module Questions {
  import opened Wrappers
  import opened JavaText

  datatype Question = Question(prompt: string, answers: seq<string>)

  // ------------------------------------------------------------ normalize

  /** No upper-case letter. */
  predicate IsLower(s: string) {
    forall k | 0 <= k < |s| :: !IsUpper(s[k])
  }

  /** `normalize`: `null` is "", anything else is trimmed and lower-cased. */
  function Normalize(s: Option<string>): (r: string)
    ensures IsTrimmed(r) && IsLower(r)
    ensures s.None? ==> r == ""
    ensures s.Some? ==> r == ToLower(Trim(s.value))
    ensures s.Some? && IsTrimmed(s.value) ==> r == ToLower(s.value)
  {
    match s
    case None => ""
    case Some(t) =>
      var r := ToLower(Trim(t));
      assert r != [] ==> !IsTrimmable(r[0]) && !IsTrimmable(r[|r| - 1]);
      r
  }

  /** Lower-casing text with no upper-case letter changes nothing. */
  lemma ToLowerOfLower(s: string)
    requires IsLower(s)
    ensures ToLower(s) == s
  {
  }

  /** Normalizing twice is normalizing once. */
  lemma NormalizeIdempotent(s: Option<string>)
    ensures Normalize(Some(Normalize(s))) == Normalize(s)
  {
    ToLowerOfLower(Normalize(s));
  }

  /** The answers as the constructor stores them: the `null` ones dropped, every other
      one normalized, in order. */
  function NormalizeAll(answers: seq<Option<string>>): (r: seq<string>)
    ensures |r| <= |answers|
  {
    if answers == [] then []
    else
      var rest := NormalizeAll(answers[..|answers| - 1]);
      match answers[|answers| - 1]
      case None => rest
      case Some(a) => rest + [Normalize(Some(a))]
  }

  /** A stored answer is exactly the normalized form of a non-null given answer. */
  lemma {:induction false} NormalizeAllMembers(answers: seq<Option<string>>, t: string)
    ensures t in NormalizeAll(answers) <==> exists a :: Some(a) in answers && t == Normalize(Some(a))
  {
    if answers != [] {
      var init, last := answers[..|answers| - 1], answers[|answers| - 1];
      assert answers == init + [last];
      NormalizeAllMembers(init, t);
      GivenAnswerSnoc(init, last, t);
      if last.Some? {
        assert NormalizeAll(answers) == NormalizeAll(init) + [Normalize(last)];
      } else {
        assert NormalizeAll(answers) == NormalizeAll(init);
      }
    }
  }

  /** One more given answer adds at most its own normalized form. */
  lemma GivenAnswerSnoc(init: seq<Option<string>>, last: Option<string>, t: string)
    ensures (exists a :: Some(a) in init + [last] && t == Normalize(Some(a))) <==>
            (exists a :: Some(a) in init && t == Normalize(Some(a))) || (last.Some? && t == Normalize(last))
  {
    if exists a :: Some(a) in init + [last] && t == Normalize(Some(a)) {
      var a :| Some(a) in init + [last] && t == Normalize(Some(a));
      if Some(a) != last {
        assert Some(a) in init;
      }
    }
    if last.Some? && t == Normalize(last) {
      assert Some(last.value) in init + [last];
    }
  }

  /** The constructor: the prompt as given, the answers normalized. */
  function NewQuestion(prompt: string, answers: seq<Option<string>>): (q: Question)
    ensures q.prompt == prompt
    ensures forall t | t in q.answers :: Normalize(Some(t)) == t
  {
    var r := NormalizeAll(answers);
    forall t | t in r ensures Normalize(Some(t)) == t {
      NormalizeAllMembers(answers, t);
      var a :| Some(a) in answers && t == Normalize(Some(a));
      NormalizeIdempotent(Some(a));
    }
    Question(prompt, r)
  }

  /** An input matches a constructed question exactly when it normalizes to the same
      text as one of the non-null answers the question was given. */
  lemma MatchesGivenAnswer(prompt: string, answers: seq<Option<string>>, input: Option<string>)
    ensures Normalize(input) in NewQuestion(prompt, answers).answers <==>
      exists a :: Some(a) in answers && Normalize(Some(a)) == Normalize(input)
  {
    NormalizeAllMembers(answers, Normalize(input));
  }

  /** `matches(input)`: the normalized input equals one of the stored answers. */
  method Matches(q: Question, input: Option<string>) returns (b: bool)
    ensures b <==> Normalize(input) in q.answers
  {
    var norm := Normalize(input);
    for k := 0 to |q.answers|
      invariant forall j | 0 <= j < k :: q.answers[j] != norm
    {
      if norm == q.answers[k] {
        return true;
      }
    }
    return false;
  }

  // ------------------------------------------------------------ splitting on " or "

  /** `\s` in a Java regular expression: space, tab, line feed, vertical tab, form feed,
      carriage return. */
  predicate IsSpace(c: char) {
    c == ' ' || 9 <= c as int <= 13
  }

  /** The end of the run of `\s` characters starting at `i`. */
  function SpaceRunEnd(s: string, i: nat): (j: nat)
    requires i <= |s|
    ensures i <= j <= |s|
    ensures forall k | i <= k < j :: IsSpace(s[k])
    ensures j < |s| ==> !IsSpace(s[j])
    decreases |s| - i
  {
    if i == |s| || !IsSpace(s[i]) then i else SpaceRunEnd(s, i + 1)
  }

  /** The run of `\s` from `i` ends at `i + n` when the `n` characters from `i` are `\s`
      and the next one, if any, is not. */
  lemma SpaceRunIs(s: string, i: nat, n: nat)
    requires i + n <= |s|
    requires forall k | i <= k < i + n :: IsSpace(s[k])
    requires i + n == |s| || !IsSpace(s[i + n])
    ensures SpaceRunEnd(s, i) == i + n
  {
  }

  /** Text added after the end of a run of `\s` leaves the run where it was. */
  lemma SpaceRunExtend(s: string, t: string, i: nat)
    requires i <= |s| && SpaceRunEnd(s, i) < |s|
    ensures SpaceRunEnd(s + t, i) == SpaceRunEnd(s, i)
  {
    var j := SpaceRunEnd(s, i);
    assert forall k | i <= k <= j :: (s + t)[k] == s[k];
    SpaceRunIs(s + t, i, j - i);
  }

  /** Where a match of `(?i)\s+or\s+` starting at `i` ends, or -1. Both runs of spaces
      are greedy, and the first must be followed at once by the two letters. */
  function MatchEnd(s: string, i: nat): (k: int)
    requires i < |s|
    ensures k == -1 || i + 4 <= k <= |s|
    ensures k >= 0 ==> IsSpace(s[i])
  {
    if !IsSpace(s[i]) then -1
    else
      var j := SpaceRunEnd(s, i);
      if j + 2 < |s| && (s[j] == 'o' || s[j] == 'O') && (s[j + 1] == 'r' || s[j + 1] == 'R') && IsSpace(s[j + 2])
      then SpaceRunEnd(s, j + 2)
      else -1
  }

  datatype Span = Span(start: nat, end: nat)

  /** The leftmost match at or after `from`, as the regular-expression search finds it. */
  function NextMatch(s: string, from: nat): (m: Option<Span>)
    ensures m.Some? ==> from <= m.value.start < |s| && MatchEnd(s, m.value.start) == m.value.end
    ensures m.Some? ==> forall i | from <= i < m.value.start :: MatchEnd(s, i) < 0
    ensures m.None? ==> forall i | from <= i < |s| :: MatchEnd(s, i) < 0
    decreases |s| - from
  {
    if from >= |s| then None
    else if MatchEnd(s, from) >= 0 then Some(Span(from, MatchEnd(s, from)))
    else NextMatch(s, from + 1)
  }

  /** A piece before the first match holds no match of its own. */
  lemma NoMatchInPrefix(s: string, n: nat)
    requires n <= |s|
    requires forall i | 0 <= i < n :: MatchEnd(s, i) < 0
    ensures NextMatch(s[..n], 0).None?
  {
    var p := s[..n];
    assert s == p + s[n..];
    forall i | 0 <= i < n ensures MatchEnd(p, i) < 0 {
      if IsSpace(p[i]) && SpaceRunEnd(p, i) < |p| {
        var j := SpaceRunEnd(p, i);
        SpaceRunExtend(p, s[n..], i);
        assert SpaceRunEnd(s, i) == j;
        if j + 2 < |p| {
          assert s[i] == p[i] && s[j] == p[j] && s[j + 1] == p[j + 1] && s[j + 2] == p[j + 2];
          assert MatchEnd(p, i) >= 0 ==> MatchEnd(s, i) >= 0;
        }
      }
    }
  }

  /** Every piece between matches, left to right, empty pieces included. No piece holds
      a match. */
  function SplitOrAll(s: string): (parts: seq<string>)
    ensures |parts| >= 1
    ensures forall k | 0 <= k < |parts| :: NextMatch(parts[k], 0).None?
    decreases |s|
  {
    match NextMatch(s, 0)
    case None => [s]
    case Some(m) =>
      NoMatchInPrefix(s, m.start);
      [s[..m.start]] + SplitOrAll(s[m.end..])
  }

  /** Text one match of `(?i)\s+or\s+` covers: a run of `\s`, the letters o and r in
      either case, and at least one `\s` up to the end. */
  predicate IsSeparator(t: string) {
    var a := SpaceRunEnd(t, 0);
    && 1 <= a && a + 3 <= |t|
    && (t[a] == 'o' || t[a] == 'O') && (t[a + 1] == 'r' || t[a + 1] == 'R')
    && forall k | a + 2 <= k < |t| :: IsSpace(t[k])
  }

  predicate AllSeparators(seps: seq<string>) {
    forall k | 0 <= k < |seps| :: IsSeparator(seps[k])
  }

  /** The text a match covers is a separator. */
  lemma MatchIsSeparator(s: string, i: nat)
    requires i < |s| && MatchEnd(s, i) >= 0
    ensures IsSeparator(s[i..MatchEnd(s, i)])
  {
    var e := MatchEnd(s, i);
    var j := SpaceRunEnd(s, i);
    var t := s[i..e];
    assert e == SpaceRunEnd(s, j + 2) && IsSpace(s[j + 2]);
    SpaceRunIs(t, 0, j - i);
  }

  /** Pieces written out with a separator between each two. */
  function JoinOr(ws: seq<string>, seps: seq<string>): (s: string)
    requires |ws| >= 1 && |seps| == |ws| - 1
    ensures |s| >= |ws[0]|
  {
    if |ws| == 1 then ws[0] else ws[0] + seps[0] + JoinOr(ws[1..], seps[1..])
  }

  /** The text each match covers, left to right: writing the pieces back with these
      between them gives the text again. */
  function SplitOrSeparators(s: string): (seps: seq<string>)
    ensures |seps| == |SplitOrAll(s)| - 1
    ensures AllSeparators(seps)
    ensures JoinOr(SplitOrAll(s), seps) == s
    decreases |s|
  {
    match NextMatch(s, 0)
    case None => []
    case Some(m) =>
      MatchIsSeparator(s, m.start);
      var rest := SplitOrSeparators(s[m.end..]);
      var parts := SplitOrAll(s);
      assert parts == [s[..m.start]] + SplitOrAll(s[m.end..]);
      assert parts[1..] == SplitOrAll(s[m.end..]);
      var seps := [s[m.start..m.end]] + rest;
      assert seps[1..] == rest;
      assert s == s[..m.start] + s[m.start..m.end] + s[m.end..];
      seps
  }

  /** `s.split("(?i)\\s+or\\s+")`: no match gives `[s]`; otherwise the pieces with the
      trailing empty ones removed. No piece holds a match. */
  function SplitOr(s: string): (parts: seq<string>)
    ensures NextMatch(s, 0).None? ==> parts == [s]
    ensures NextMatch(s, 0).Some? ==> parts == [] || parts[|parts| - 1] != ""
    ensures forall k | 0 <= k < |parts| :: NextMatch(parts[k], 0).None?
  {
    if NextMatch(s, 0).None? then [s] else DropTrailingEmpty(SplitOrAll(s))
  }

  // ------------------------------------------------------------ fromLine

  /** The answers as `Arrays.asList(parts)`: none of them `null`. */
  function Present(parts: seq<string>): (r: seq<Option<string>>)
    ensures |r| == |parts| && forall k | 0 <= k < |parts| :: r[k] == Some(parts[k])
  {
    seq(|parts|, k requires 0 <= k < |parts| => Some(parts[k]))
  }

  /** The trimmed line (`null` read as "") after the first ") ", if there is one. */
  function Body(line: Option<string>): (body: string) {
    var text := match line case None => "" case Some(l) => Trim(l);
    var idx := IndexOf(text, ") ");
    if idx >= 0 then text[idx + 2..] else text
  }

  /** `fromLine(line)`. Without " - " the body is the prompt and "" the only answer;
      otherwise the prompt is the trimmed text before the first " - " and the answers
      are the trimmed text after it, split at each " or " in any letter case. */
  function FromLine(line: Option<string>): (q: Question)
    ensures forall t | t in q.answers :: Normalize(Some(t)) == t
    ensures IndexOf(Body(line), " - ") < 0 ==> q == Question(Body(line), [""])
    ensures IndexOf(Body(line), " - ") >= 0 ==> IsTrimmed(q.prompt)
    ensures IndexOf(Body(line), " - ") >= 0 ==> q.prompt == Trim(Body(line)[..IndexOf(Body(line), " - ")])
  {
    var body := Body(line);
    var sep := IndexOf(body, " - ");
    if sep < 0 then
      assert NormalizeAll([Some("")]) == [""];
      NewQuestion(body, [Some("")])
    else
      NewQuestion(Trim(body[..sep]), Present(SplitOr(Trim(body[sep + 3..]))))
  }

  /** A line with no " - " accepts a blank or missing answer. */
  lemma BlankMatchesWithoutSeparator(line: Option<string>, input: Option<string>)
    requires IndexOf(Body(line), " - ") < 0
    requires input.None? || AllTrimmable(input.value)
    ensures Normalize(input) in FromLine(line).answers
  {
    if input.Some? {
      assert Trim(input.value) == [];
    }
  }

  // ------------------------------------------------------------ well-formed lines

  /** An answer as a line can carry it: not empty, nothing for `trim` to strip, and no
      separator inside, not even one the blank after it would complete (as "rock or"). */
  predicate IsWord(w: string) {
    w != [] && IsTrimmed(w) && NextMatch(w + " ", 0).None?
  }

  predicate AllWords(ws: seq<string>) {
    forall k | 0 <= k < |ws| :: IsWord(ws[k])
  }

  /** The answers lower-cased, as a question built from them stores them. */
  function Lowered(ws: seq<string>): (r: seq<string>)
    ensures |r| == |ws| && forall k | 0 <= k < |ws| :: r[k] == ToLower(ws[k])
  {
    seq(|ws|, k requires 0 <= k < |ws| => ToLower(ws[k]))
  }

  /** Joined words start and end with a word's character. */
  lemma {:induction false} JoinOrTrimmed(ws: seq<string>, seps: seq<string>)
    requires |ws| >= 1 && |seps| == |ws| - 1 && AllWords(ws)
    ensures JoinOr(ws, seps) != [] && IsTrimmed(JoinOr(ws, seps))
  {
    if |ws| > 1 {
      assert AllWords(ws[1..]) by {
        forall k | 0 <= k < |ws| - 1 ensures IsWord(ws[1..][k]) {
          assert ws[1..][k] == ws[k + 1];
        }
      }
      JoinOrTrimmed(ws[1..], seps[1..]);
      var rest := JoinOr(ws[1..], seps[1..]);
      var s := ws[0] + seps[0] + rest;
      assert s[0] == ws[0][0];
      assert s[|s| - 1] == rest[|rest| - 1];
    }
  }

  /** A word holds no match. */
  lemma NoMatchInWord(w: string)
    requires IsWord(w)
    ensures NextMatch(w, 0).None?
  {
    NoMatchInPrefix(w + " ", |w|);
    assert (w + " ")[..|w|] == w;
  }

  /** No match starts inside a word followed by a blank: it would have to end inside the
      word or use that blank, and then `w + " "` would hold it too. */
  lemma NoMatchStartsInWord(w: string, v: string, i: nat)
    requires IsWord(w) && v != [] && IsSpace(v[0]) && i < |w|
    ensures MatchEnd(w + v, i) < 0
  {
    var s, u := w + v, w + " ";
    assert MatchEnd(u, i) < 0;
    if IsSpace(s[i]) {
      var j := SpaceRunEnd(s, i);
      assert j < |w| by {
        assert s[|w| - 1] == w[|w| - 1];
        assert !IsSpace(s[|w| - 1]);
      }
      assert forall k | i <= k <= j :: u[k] == s[k];
      SpaceRunIs(u, i, j - i);
      assert s[|w|] == v[0];
      if j + 1 < |w| {
        assert u[j + 1] == s[j + 1];
        assert IsSpace(u[j + 2]) == IsSpace(s[j + 2]);
      }
    }
  }

  /** In `w`, a separator and more text, the first match is exactly the separator. */
  lemma FirstMatchAfterWord(w: string, t: string, rest: string)
    requires IsWord(w) && IsSeparator(t) && rest != [] && !IsTrimmable(rest[0])
    ensures NextMatch(w + t + rest, 0) == Some(Span(|w|, |w| + |t|))
  {
    var s := w + t + rest;
    assert s == w + (t + rest);
    forall i | 0 <= i < |w| ensures MatchEnd(s, i) < 0 {
      NoMatchStartsInWord(w, t + rest, i);
    }
    SeparatorMatches(w, t, rest);
  }

  /** A match starting at a separator covers exactly the separator when the text after
      it does not start with a blank. */
  lemma SeparatorMatches(w: string, t: string, rest: string)
    requires IsSeparator(t) && rest != [] && !IsTrimmable(rest[0])
    ensures MatchEnd(w + t + rest, |w|) == |w| + |t|
  {
    var s := w + t + rest;
    var n, a := |w|, SpaceRunEnd(t, 0);
    forall k | n <= k < n + a ensures IsSpace(s[k]) {
      assert s[k] == t[k - n];
    }
    assert s[n + a] == t[a];
    SpaceRunIs(s, n, a);
    assert s[n + a + 1] == t[a + 1] && s[n + a + 2] == t[a + 2];
    forall k | n + a + 2 <= k < n + |t| ensures IsSpace(s[k]) {
      assert s[k] == t[k - n];
    }
    assert s[n + |t|] == rest[0];
    SpaceRunIs(s, n + a + 2, |t| - a - 2);
  }

  /** A word, a separator and more text split into the word and the pieces of the rest. */
  lemma SplitOrAllCons(w: string, t: string, rest: string)
    requires IsWord(w) && IsSeparator(t) && rest != [] && !IsTrimmable(rest[0])
    ensures SplitOrAll(w + t + rest) == [w] + SplitOrAll(rest)
  {
    var s := w + t + rest;
    FirstMatchAfterWord(w, t, rest);
    assert s[..|w|] == w && s[|w| + |t|..] == rest;
  }

  /** Splitting joined words gives the words back (before trailing pieces are dropped). */
  lemma {:induction false} SplitOrAllJoin(ws: seq<string>, seps: seq<string>)
    requires |ws| >= 1 && |seps| == |ws| - 1 && AllWords(ws) && AllSeparators(seps)
    ensures SplitOrAll(JoinOr(ws, seps)) == ws
  {
    if |ws| == 1 {
      NoMatchInWord(ws[0]);
    } else {
      assert AllWords(ws[1..]) by {
        forall k | 0 <= k < |ws| - 1 ensures IsWord(ws[1..][k]) {
          assert ws[1..][k] == ws[k + 1];
        }
      }
      assert AllSeparators(seps[1..]) by {
        forall k | 0 <= k < |seps| - 1 ensures IsSeparator(seps[1..][k]) {
          assert seps[1..][k] == seps[k + 1];
        }
      }
      var w, rest := ws[0], JoinOr(ws[1..], seps[1..]);
      JoinOrTrimmed(ws[1..], seps[1..]);
      SplitOrAllCons(w, seps[0], rest);
      SplitOrAllJoin(ws[1..], seps[1..]);
      assert ws == [w] + ws[1..];
    }
  }

  /** Answers written with separators between them, in any letter case and with any runs
      of blanks, split back into the same answers. */
  lemma SplitOrJoin(ws: seq<string>, seps: seq<string>)
    requires |ws| >= 1 && |seps| == |ws| - 1 && AllWords(ws) && AllSeparators(seps)
    ensures SplitOr(JoinOr(ws, seps)) == ws
  {
    SplitOrAllJoin(ws, seps);
    if |ws| == 1 {
      NoMatchInWord(ws[0]);
    } else {
      assert ws[|ws| - 1] != "";
    }
  }

  /** `indexOf` finds the first occurrence. */
  lemma IndexOfIs(s: string, pat: string, i: nat)
    requires OccursAt(s, pat, i)
    requires forall k | 0 <= k < i :: !OccursAt(s, pat, k)
    ensures IndexOf(s, pat) == i
  {
  }

  /** A numbered line's body: everything after the number and ") ". */
  lemma BodyOfNumberedLine(num: string, rest: string)
    requires |num| >= 1 && AllDigits(num)
    requires rest != [] && !IsTrimmable(rest[|rest| - 1])
    ensures Body(Some(num + ") " + rest)) == rest
  {
    var line := num + ") " + rest;
    assert line[0] == num[0] && line[|line| - 1] == rest[|rest| - 1];
    assert Trim(line) == line;
    assert line[|num|..|num| + 2] == ") ";
    forall k | 0 <= k < |num| ensures !OccursAt(line, ") ", k) {
      assert line[k] == num[k];
    }
    IndexOfIs(line, ") ", |num|);
    assert line[|num| + 2..] == rest;
  }

  /** The separator after the prompt is the first one when the prompt has none. */
  lemma SeparatorAfterPrompt(prompt: string, answers: string)
    requires IndexOf(prompt + " - ", " - ") == |prompt|
    ensures IndexOf(prompt + " - " + answers, " - ") == |prompt|
  {
    var head := prompt + " - ";
    var s := head + answers;
    assert s[|prompt|..|prompt| + 3] == " - ";
    forall k | 0 <= k < |prompt| ensures !OccursAt(s, " - ", k) {
      assert !OccursAt(head, " - ", k);
      assert s[k..k + 3] == head[k..k + 3];
    }
    IndexOfIs(s, " - ", |prompt|);
  }

  lemma NormalizeAllSnoc(init: seq<Option<string>>, a: string)
    ensures NormalizeAll(init + [Some(a)]) == NormalizeAll(init) + [Normalize(Some(a))]
  {
    assert (init + [Some(a)])[..|init|] == init;
  }

  lemma PresentSnoc(ws: seq<string>)
    requires ws != []
    ensures Present(ws) == Present(ws[..|ws| - 1]) + [Some(ws[|ws| - 1])]
  {
  }

  lemma LoweredSnoc(ws: seq<string>)
    requires ws != []
    ensures Lowered(ws) == Lowered(ws[..|ws| - 1]) + [ToLower(ws[|ws| - 1])]
  {
  }

  lemma {:induction false} NormalizeWords(ws: seq<string>)
    requires AllWords(ws)
    ensures NormalizeAll(Present(ws)) == Lowered(ws)
  {
    if ws != [] {
      var init, last := ws[..|ws| - 1], ws[|ws| - 1];
      assert AllWords(init) by {
        forall k | 0 <= k < |init| ensures IsWord(init[k]) {
          assert init[k] == ws[k];
        }
      }
      NormalizeWords(init);
      PresentSnoc(ws);
      NormalizeAllSnoc(Present(init), last);
      LoweredSnoc(ws);
      assert IsTrimmed(last) by {
        assert IsWord(ws[|ws| - 1]);
      }
    }
  }

  /** `fromLine` on a body that splits at its first " - " into two trimmed halves. */
  lemma FromLineOfBody(line: Option<string>, prompt: string, answers: string)
    requires Body(line) == prompt + " - " + answers
    requires IndexOf(Body(line), " - ") == |prompt|
    requires IsTrimmed(prompt) && IsTrimmed(answers)
    ensures FromLine(line) == NewQuestion(prompt, Present(SplitOr(answers)))
  {
    Halves(prompt, answers);
  }

  lemma Halves(prompt: string, answers: string)
    ensures (prompt + " - " + answers)[..|prompt|] == prompt
    ensures (prompt + " - " + answers)[|prompt| + 3..] == answers
  {
  }

  /** A well-formed line: a number, ") ", a prompt with no " - " of its own, " - ", and
      answers with a separator (" or ", " OR ", a tab and "Or", ...) between each two. It
      reads back as that prompt and those answers, lower-cased. */
  lemma FromWellFormedLine(num: string, prompt: string, ws: seq<string>, seps: seq<string>)
    requires |num| >= 1 && AllDigits(num)
    requires IsTrimmed(prompt) && IndexOf(prompt + " - ", " - ") == |prompt|
    requires |ws| >= 1 && |seps| == |ws| - 1 && AllWords(ws) && AllSeparators(seps)
    ensures FromLine(Some(num + ") " + (prompt + " - " + JoinOr(ws, seps)))) == Question(prompt, Lowered(ws))
  {
    var answers := JoinOr(ws, seps);
    JoinOrTrimmed(ws, seps);
    BodyOfWellFormedLine(num, prompt, answers);
    FromLineOfBody(Some(num + ") " + (prompt + " - " + answers)), prompt, answers);
    QuestionOfWords(prompt, ws, seps);
  }

  /** A line with a two-word answer, an upper-case "OR" and a tab. */
  lemma CityLine(line: string)
    requires line == "7) Capital? - New York OR\tNYC"
    ensures FromLine(Some(line)) == Question("Capital?", ["new york", "nyc"])
  {
    var ws, seps := ["New York", "NYC"], [" OR\t"];
    CityWords();
    CityPrompt();
    CityJoined(ws, seps);
    CityLowered(ws);
    FromWellFormedLine("7", "Capital?", ws, seps);
  }

  lemma CityWords()
    ensures IsWord("New York") && IsWord("NYC") && IsSeparator(" OR\t")
  {
    assert NextMatch("New York ", 0).None?;
    assert NextMatch("NYC ", 0).None?;
    assert SpaceRunEnd(" OR\t", 0) == 1;
  }

  lemma CityPrompt()
    ensures IndexOf("Capital?" + " - ", " - ") == |"Capital?"|
  {
    var prompt := "Capital?";
    var head := prompt + " - ";
    forall k | 0 <= k < |prompt| ensures !OccursAt(head, " - ", k) {
      assert head[k] == prompt[k] != ' ';
    }
    IndexOfIs(head, " - ", |prompt|);
  }

  lemma CityJoined(ws: seq<string>, seps: seq<string>)
    requires ws == ["New York", "NYC"] && seps == [" OR\t"]
    ensures "7" + ") " + ("Capital?" + " - " + JoinOr(ws, seps)) == "7) Capital? - New York OR\tNYC"
  {
    assert JoinOr(ws[1..], seps[1..]) == "NYC";
  }

  lemma CityLowered(ws: seq<string>)
    requires ws == ["New York", "NYC"]
    ensures Lowered(ws) == ["new york", "nyc"]
  {
    assert ToLower(ws[0]) == "new york";
    assert ToLower(ws[1]) == "nyc";
  }

  /** The body of a well-formed line is the prompt, " - " and the answers. */
  lemma BodyOfWellFormedLine(num: string, prompt: string, answers: string)
    requires |num| >= 1 && AllDigits(num)
    requires IndexOf(prompt + " - ", " - ") == |prompt|
    requires answers != [] && IsTrimmed(answers)
    ensures Body(Some(num + ") " + (prompt + " - " + answers))) == prompt + " - " + answers
    ensures IndexOf(prompt + " - " + answers, " - ") == |prompt|
  {
    var body := prompt + " - " + answers;
    assert body[|body| - 1] == answers[|answers| - 1];
    BodyOfNumberedLine(num, body);
    SeparatorAfterPrompt(prompt, answers);
  }

  /** The constructor given the pieces of joined words stores the words lower-cased. */
  lemma QuestionOfWords(prompt: string, ws: seq<string>, seps: seq<string>)
    requires |ws| >= 1 && |seps| == |ws| - 1 && AllWords(ws) && AllSeparators(seps)
    ensures NewQuestion(prompt, Present(SplitOr(JoinOr(ws, seps)))) == Question(prompt, Lowered(ws))
  {
    SplitOrJoin(ws, seps);
    NormalizeWords(ws);
  }
}
