/** Removal of the standalone transaction wrapper lines of a migration script. */
module SqlScript {
  import opened Text

  predicate Blank(c: char) { c == '\t' || c == ' ' }

  /** A line that is nothing but BEGIN; or COMMIT;, with blanks, a line comment or a carriage
      return around it. */
  predicate IsWrapper(line: string) {
    var body := TrimLeft(Blank, line);
    Begins(body, "BEGIN;") || Begins(body, "COMMIT;")
  }

  /** The word, and nothing that counts after it. */
  predicate Begins(body: string, word: string) {
    word <= body && IsTail(body[|word|..])
  }

  predicate IsTail(s: string) {
    var rest := TrimLeft(Blank, s);
    rest == "" || rest == "\r" || "--" <= rest
  }

  function Emptied(drop: string -> bool, lines: seq<string>): seq<string> {
    seq(|lines|, i requires 0 <= i < |lines| => if drop(lines[i]) then "" else lines[i])
  }

  function Unwrap(lines: seq<string>): seq<string> {
    Emptied(IsWrapper, lines)
  }

  /** Every wrapper line is emptied. A match never crosses a line end, so lines can be taken one by one. */
  function StripWrappers(sql: string): string {
    Join(Unwrap(Split(sql, '\n')), '\n')
  }

  /** What the transaction runs; nothing at all when only wrappers and space remain. */
  function Script(sql: string): string {
    GoTrim(StripWrappers(sql))
  }

  /** No wrapper line is left, every other line stays in place unchanged, and stripping again
      changes nothing. */
  lemma StripIsExact(sql: string)
    ensures var before, after := Split(sql, '\n'), Split(StripWrappers(sql), '\n');
            |after| == |before| &&
            forall i :: 0 <= i < |after| ==>
              !IsWrapper(after[i]) && (after[i] == if IsWrapper(before[i]) then "" else before[i])
    ensures StripWrappers(StripWrappers(sql)) == StripWrappers(sql)
  {
    var before := Split(sql, '\n');
    SplitOfJoin(Unwrap(before), '\n');
    assert Unwrap(Unwrap(before)) == Unwrap(before);
  }

  // ---------------------------------------------------------------- what stripping means for scripts

  lemma {:induction false} SpaceOfJoin(pieces: seq<string>)
    requires forall p :: p in pieces ==> GoTrim(p) == ""
    ensures forall c :: c in Join(pieces, '\n') ==> GoSpace(c)
  {
    if pieces != [] {
      assert pieces[0] in pieces;
      TrimEmptyIff(GoSpace, pieces[0]);
      forall p | p in pieces[1..] ensures GoTrim(p) == "" {
        assert p in pieces;
      }
      SpaceOfJoin(pieces[1..]);
    }
  }

  /** Every line is a wrapper or space. */
  ghost predicate OnlyWrappers(sql: string) {
    forall line :: line in Split(sql, '\n') ==> IsWrapper(line) || GoTrim(line) == ""
  }

  lemma OnlyWrappersIsEmpty(sql: string)
    requires OnlyWrappers(sql)
    ensures Script(sql) == ""
  {
    var lines := Split(sql, '\n');
    forall p | p in Unwrap(lines) ensures GoTrim(p) == "" {
      var i :| 0 <= i < |lines| && Unwrap(lines)[i] == p;
      assert lines[i] in lines;
      TrimEmptyIff(GoSpace, p);
    }
    SpaceOfJoin(Unwrap(lines));
    TrimEmptyIff(GoSpace, StripWrappers(sql));
  }

  lemma EmptiedEnds(drop: string -> bool, first: string, lines: seq<string>, last: string)
    requires drop(first) && drop(last)
    ensures Emptied(drop, [first] + (lines + [last])) == [""] + (Emptied(drop, lines) + [""])
  {}

  lemma PaddedJoin(pieces: seq<string>)
    requires pieces != []
    ensures Join([""] + (pieces + [""]), '\n') == ['\n'] + Join(pieces, '\n') + ['\n']
  {
    var inner := pieces + [""];
    JoinSnoc(pieces, "", '\n');
    assert ([""] + inner)[1..] == inner;
    assert Join([""] + inner, '\n') == "" + ['\n'] + Join(inner, '\n');
  }

  /** Wrapping a script in wrapper lines of its own is undone by the stripping. */
  lemma WrappedIsSame(begin: string, sql: string, commit: string)
    requires IsWrapper(begin) && '\n' !in begin && IsWrapper(commit) && '\n' !in commit
    ensures Script(begin + ['\n'] + (sql + ['\n'] + commit)) == Script(sql)
  {
    WrappedLines(IsWrapper, begin, sql, commit);
    TrimSkips(GoSpace, ['\n'], StripWrappers(sql), ['\n']);
  }

  lemma WrappedLines(drop: string -> bool, first: string, sql: string, last: string)
    requires drop(first) && '\n' !in first && drop(last) && '\n' !in last
    ensures var lines := Emptied(drop, Split(sql, '\n'));
            Join(Emptied(drop, Split(first + ['\n'] + (sql + ['\n'] + last), '\n')), '\n') ==
              ['\n'] + Join(lines, '\n') + ['\n']
  {
    SplitPrefix(first, sql + ['\n'] + last, '\n');
    SplitSuffix(sql, last, '\n');
    EmptiedEnds(drop, first, Split(sql, '\n'), last);
    PaddedJoin(Emptied(drop, Split(sql, '\n')));
  }

  lemma SolidWord(word: string)
    requires word != "" && !Blank(word[0])
    ensures TrimLeft(Blank, word) == word
  {}

  lemma PlainWrappers(begin: string, commit: string)
    requires begin == "BEGIN;" && commit == "COMMIT;"
    ensures IsWrapper(begin) && IsWrapper(commit)
  {
    PlainWrapper(begin);
    PlainWrapper(commit);
  }

  lemma PlainWrapper(word: string)
    requires word == "BEGIN;" || word == "COMMIT;"
    ensures IsWrapper(word)
  {
    var none := "";
    assert word == none + (word + (none + none));
    PartsBegin(none, word, none, none);
  }

  lemma OneLineWords(begin: string, commit: string)
    requires begin == "BEGIN;" && commit == "COMMIT;"
    ensures '\n' !in begin && '\n' !in commit
  {}

  /** The form that old migrations have: a transaction of their own around the script. */
  lemma TransactionIsSame(begin: string, sql: string, commit: string)
    requires begin == "BEGIN;" && commit == "COMMIT;"
    ensures Script(begin + ['\n'] + (sql + ['\n'] + commit)) == Script(sql)
  {
    PlainWrappers(begin, commit);
    OneLineWords(begin, commit);
    WrappedIsSame(begin, sql, commit);
  }

  // ---------------------------------------------------------------- what is a wrapper, what is executed

  /** The parts of a wrapper line: blanks, the word, blanks, perhaps a comment, perhaps a carriage return. */
  ghost predicate HasParts(line: string, lead: string, word: string, gap: string, comment: string, end: string) {
    line == lead + (word + (gap + (comment + end))) && AllOf(Blank, lead) && (word == "BEGIN;" || word == "COMMIT;") &&
    AllOf(Blank, gap) && (comment == "" || "--" <= comment) && (end == "" || end == "\r")
  }

  lemma PartsBegin(lead: string, word: string, gap: string, tail: string)
    requires AllOf(Blank, lead) && AllOf(Blank, gap) && word != "" && !Blank(word[0])
    requires tail == "" || tail == "\r" || "--" <= tail
    ensures TrimLeft(Blank, lead + (word + (gap + tail))) == word + (gap + tail)
    ensures Begins(word + (gap + tail), word)
  {
    TrimLeftSkips(Blank, lead, word + (gap + tail));
    SolidWord(word + (gap + tail));
    TrimLeftSkips(Blank, gap, tail);
    SolidTail(tail);
    WordThen(word, gap + tail);
  }

  lemma SolidTail(tail: string)
    requires tail == "" || tail == "\r" || "--" <= tail
    ensures TrimLeft(Blank, tail) == tail
  {
    if tail != "" {
      assert tail[0] == '\r' || tail[0] == "--"[0];
    }
  }

  lemma WordThen(word: string, rest: string)
    requires IsTail(rest)
    ensures Begins(word + rest, word)
  {
    assert (word + rest)[|word|..] == rest;
  }

  lemma PartsMakeWrapper(line: string, lead: string, word: string, gap: string, comment: string, end: string)
    requires HasParts(line, lead, word, gap, comment, end)
    ensures IsWrapper(line)
  {
    CommentTail(comment, end);
    PartsBegin(lead, word, gap, comment + end);
  }

  lemma CommentTail(comment: string, end: string)
    requires (comment == "" || "--" <= comment) && (end == "" || end == "\r")
    ensures comment + end == "" || comment + end == "\r" || "--" <= comment + end
  {
    if comment != "" {
      assert (comment + end)[..2] == comment[..2];
    }
  }

  lemma SplitBegin(line: string, word: string) returns (lead: string, gap: string, tail: string)
    requires Begins(TrimLeft(Blank, line), word)
    ensures line == lead + (word + (gap + tail)) && AllOf(Blank, lead) && AllOf(Blank, gap)
    ensures tail == "" || tail == "\r" || "--" <= tail
  {
    var body := TrimLeft(Blank, line);
    var rest := WordAndRest(body, word);
    tail := TrimLeft(Blank, rest);
    lead := TrimLeftParts(Blank, line);
    gap := TrimLeftParts(Blank, rest);
  }

  lemma WordAndRest(body: string, word: string) returns (rest: string)
    requires Begins(body, word)
    ensures body == word + rest && IsTail(rest)
  {
    rest := body[|word|..];
  }

  lemma WrapperHasParts(line: string) returns (lead: string, word: string, gap: string, comment: string, end: string)
    requires IsWrapper(line)
    ensures HasParts(line, lead, word, gap, comment, end)
  {
    if Begins(TrimLeft(Blank, line), "BEGIN;") {
      word := "BEGIN;";
    } else {
      word := "COMMIT;";
    }
    lead, gap, comment, end := WordHasParts(line, word);
  }

  lemma WordHasParts(line: string, word: string) returns (lead: string, gap: string, comment: string, end: string)
    requires Begins(TrimLeft(Blank, line), word)
    ensures line == lead + (word + (gap + (comment + end))) && AllOf(Blank, lead) && AllOf(Blank, gap)
    ensures (comment == "" || "--" <= comment) && (end == "" || end == "\r")
  {
    var tail;
    lead, gap, tail := SplitBegin(line, word);
    comment, end := SplitTail(tail);
  }

  lemma SplitTail(tail: string) returns (comment: string, end: string)
    requires tail == "" || tail == "\r" || "--" <= tail
    ensures tail == comment + end && (comment == "" || "--" <= comment) && (end == "" || end == "\r")
  {
    if "--" <= tail {
      comment, end := tail, "";
    } else {
      comment, end := "", tail;
    }
  }

  /** What a wrapper line is. */
  lemma WrapperIff(line: string)
    ensures IsWrapper(line) <==> exists lead, word, gap, comment, end :: HasParts(line, lead, word, gap, comment, end)
  {
    if IsWrapper(line) {
      var lead, word, gap, comment, end := WrapperHasParts(line);
    }
    forall lead, word, gap, comment, end | HasParts(line, lead, word, gap, comment, end) ensures IsWrapper(line) {
      PartsMakeWrapper(line, lead, word, gap, comment, end);
    }
  }

  /** What is executed: the stripped text without the space before and behind it. */
  lemma ScriptIsMiddle(sql: string) returns (before: string, behind: string)
    ensures StripWrappers(sql) == before + Script(sql) + behind
    ensures AllOf(GoSpace, before) && AllOf(GoSpace, behind)
    ensures Script(sql) != "" ==> !GoSpace(Script(sql)[0]) && !GoSpace(Script(sql)[|Script(sql)| - 1])
  {
    before, behind := TrimParts(GoSpace, StripWrappers(sql));
  }

  ghost predicate Contains(s: string, word: string) {
    exists a: string, b: string :: s == a + word + b
  }

  /** A script without the two words is executed as it is, but for space around it. */
  lemma CleanScriptIsExecuted(sql: string)
    requires !Contains(sql, "BEGIN;") && !Contains(sql, "COMMIT;")
    ensures Script(sql) == GoTrim(sql)
  {
    var lines := Split(sql, '\n');
    forall i | 0 <= i < |lines| ensures !IsWrapper(lines[i]) {
      if IsWrapper(lines[i]) {
        var lead, word, gap, comment, end := WrapperHasParts(lines[i]);
        var a, b := PieceIsPart(sql, '\n', i);
        WordInPart(sql, a, b, lead, word, gap + (comment + end));
      }
    }
    assert Unwrap(lines) == lines;
    JoinOfSplit(sql, '\n');
  }

  lemma WordInPart(s: string, a: string, b: string, lead: string, word: string, rest: string)
    requires s == a + (lead + (word + rest)) + b
    ensures Contains(s, word)
  {
    assert s == (a + lead) + word + (rest + b);
  }
}
