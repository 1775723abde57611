/** The interactive loop of `main`: each input line is stripped, then either
    ends the session, is refused as empty, or is handed to `process_query`. */
module ChatLoop {
  import opened Text
  import opened StreamFilter

  /** The words that end the session, compared after lower-casing. */
  const ExitWords: seq<string> := ["exit", "quit", "bye"]

  predicate IsExitWord(query: string)
  {
    Lower(query) in ExitWords
  }

  /** What `main` does with one input line. */
  datatype LineAction =
    | Exit                    // says goodbye and leaves the loop
    | SkipEmpty               // warns and reads the next line
    | Process(query: string)  // hands the stripped line to the agent

  /** The three tests of `main`, in source order: the exit test runs on the
      stripped line before the empty test. */
  function Classify(line: string): (a: LineAction)
    ensures a == Exit <==> IsExitWord(Strip(line))
    ensures a == SkipEmpty <==> Strip(line) == [] && !IsExitWord(Strip(line))
    ensures a.Process? ==> a.query == Strip(line) && a.query != [] && !IsExitWord(a.query)
  {
    var userQuery := Strip(line);
    if IsExitWord(userQuery) then Exit
    else if userQuery == [] then SkipEmpty
    else Process(userQuery)
  }

  /** The empty line is not an exit word, so blank lines always reach the
      empty test; and a processed query is already stripped. */
  lemma ClassifyCases(line: string)
    ensures Classify(line) == SkipEmpty <==> forall k :: 0 <= k < |line| ==> IsSpace(line[k])
    ensures Classify(line).Process? ==> Strip(Classify(line).query) == Classify(line).query
  {
    StripEmpty(line);
    assert Lower([]) == [];
    StripIdempotent(line);
  }

  /** `c` is `w` up to ASCII case, for a lower-case letter or any other
      character `w`. */
  predicate SameLetterIgnoringCase(c: char, w: char)
  {
    c == w || ('a' <= w <= 'z' && c as int == w as int - 32)
  }

  /** The exit test is case-insensitive and nothing more: a line is an exit
      word exactly when it spells `exit`, `quit` or `bye` in any mixture of
      upper and lower case. */
  lemma ExitWordIgnoresCase(query: string)
    ensures IsExitWord(query) <==>
      exists w :: w in ExitWords && |query| == |w|
                  && forall k :: 0 <= k < |w| ==> SameLetterIgnoringCase(query[k], w[k])
  {
    forall w | w in ExitWords && |query| == |w|
      ensures Lower(query) == w <==> forall k :: 0 <= k < |w| ==> SameLetterIgnoringCase(query[k], w[k])
    {
      assert forall k :: 0 <= k < |w| ==> 'a' <= w[k] <= 'z';
      forall k | 0 <= k < |w|
        ensures LowerChar(query[k]) == w[k] <==> SameLetterIgnoringCase(query[k], w[k])
      {
      }
      if forall k :: 0 <= k < |w| ==> SameLetterIgnoringCase(query[k], w[k]) {
        assert Lower(query) == w;
      }
    }
  }

  /** One line of the session: what the user typed, and the stream of deltas
      the agent would send back were the line processed. */
  datatype Turn = Turn(line: string, reply: seq<string>)

  /** What a line leaves on the console, banners aside. */
  datatype Outcome =
    | Goodbye
    | EmptyWarning
    | Answered(query: string, output: string)

  /** What `main` does with one line, as a value. */
  function Handle(t: Turn): Outcome
  {
    match Classify(t.line)
    case Exit => Goodbye
    case SkipEmpty => EmptyWarning
    case Process(q) => Answered(q, Output(false, t.reply))
  }

  /** The log has already said goodbye. */
  predicate Ended(log: seq<Outcome>)
  {
    |log| > 0 && log[|log| - 1] == Goodbye
  }

  /** The session over a finite list of turns: lines are handled in order
      until the first exit word, after which nothing more is read. */
  function Session(turns: seq<Turn>): seq<Outcome>
    decreases |turns|
  {
    if turns == [] then []
    else
      var earlier := Session(turns[..|turns| - 1]);
      if Ended(earlier) then earlier else earlier + [Handle(turns[|turns| - 1])]
  }

  /** One more line extends a session that has not ended by that line's
      outcome. */
  lemma SessionSnoc(turns: seq<Turn>, i: nat)
    requires i < |turns| && !Ended(Session(turns[..i]))
    ensures Session(turns[..i + 1]) == Session(turns[..i]) + [Handle(turns[i])]
  {
    assert turns[..i + 1][..i] == turns[..i];
  }

  /** Once a prefix of the session has said goodbye, the remaining lines
      change nothing. */
  lemma SessionEnded(turns: seq<Turn>, j: nat)
    requires j <= |turns| && Ended(Session(turns[..j]))
    ensures Session(turns) == Session(turns[..j])
    decreases |turns|
  {
    if j < |turns| {
      var init := turns[..|turns| - 1];
      assert init[..j] == turns[..j];
      SessionEnded(init, j);
    } else {
      assert turns[..j] == turns;
    }
  }

  /** One pass of `main`'s loop body: the exit test, the empty test, and
      otherwise the query streamed through the filter. */
  method HandleTurn(t: Turn) returns (o: Outcome)
    ensures o == Handle(t)
  {
    var action := Classify(t.line);
    if action == Exit {
      return Goodbye;
    }
    if action == SkipEmpty {
      return EmptyWarning;
    }
    var output := ProcessQuery(t.reply);
    return Answered(action.query, output);
  }

  /** `main`'s `while True` loop, run over the given turns; it leaves the
      loop at the first goodbye. */
  method RunSession(turns: seq<Turn>) returns (log: seq<Outcome>)
    ensures log == Session(turns)
  {
    log := [];
    var i := 0;
    while i < |turns|
      invariant 0 <= i <= |turns|
      invariant log == Session(turns[..i]) && !Ended(log)
    {
      SessionSnoc(turns, i);
      var o := HandleTurn(turns[i]);
      log := log + [o];
      if o == Goodbye {
        SessionEnded(turns, i + 1);
        return;
      }
      i := i + 1;
    }
    assert turns[..i] == turns;
  }

  /** What one line produces when it is not an exit word. */
  function Reply(t: Turn): Outcome
  {
    if Strip(t.line) == [] then EmptyWarning
    else Answered(Strip(t.line), Output(false, t.reply))
  }

  /** None of the lines is an exit word. */
  predicate NoExit(turns: seq<Turn>)
  {
    forall k :: 0 <= k < |turns| ==> !IsExitWord(Strip(turns[k].line))
  }

  /** Every line's own outcome, in order, as if none of them were an exit
      word. */
  function Replies(turns: seq<Turn>): (r: seq<Outcome>)
    ensures |r| == |turns|
    ensures forall k :: 0 <= k < |turns| ==> r[k] == Reply(turns[k])
    decreases |turns|
  {
    if turns == [] then [] else Replies(turns[..|turns| - 1]) + [Reply(turns[|turns| - 1])]
  }

  /** Before the first exit word, every line produces its own outcome, in
      order, and each query is filtered from a closed code block: nothing
      carries over from one query to the next. */
  lemma {:induction false} SessionWithoutExit(turns: seq<Turn>)
    requires NoExit(turns)
    ensures Session(turns) == Replies(turns)
    decreases |turns|
  {
    if turns != [] {
      var n := |turns| - 1;
      var init := turns[..n];
      assert NoExit(init) by {
        assert forall k :: 0 <= k < n ==> init[k] == turns[k];
      }
      SessionWithoutExit(init);
      var earlier := Session(init);
      assert !Ended(earlier) by {
        if n > 0 {
          ReplyIsNotGoodbye(init[n - 1]);
        }
      }
      HandleIsReply(turns[n]);
    }
  }

  /** A line that is not an exit word never says goodbye. */
  lemma ReplyIsNotGoodbye(t: Turn)
    ensures Reply(t) != Goodbye
  {
  }

  /** Away from the exit test, `main` does what `Reply` says. */
  lemma HandleIsReply(t: Turn)
    requires !IsExitWord(Strip(t.line))
    ensures Handle(t) == Reply(t)
  {
  }

  /** The first exit word ends the session: what came before is handled as
      usual, a goodbye follows, and the lines after it are never read. */
  lemma SessionEndsAtFirstExit(before: seq<Turn>, exit: Turn, after: seq<Turn>)
    requires NoExit(before) && IsExitWord(Strip(exit.line))
    ensures Session(before + [exit] + after) == Session(before) + [Goodbye]
  {
    var all := before + [exit] + after;
    var n := |before|;
    SessionWithoutExit(before);
    assert !Ended(Session(before)) by {
      if n > 0 {
        assert Session(before)[n - 1] == Reply(before[n - 1]);
      }
    }
    assert all[..n] == before && all[n] == exit;
    SessionSnoc(all, n);
    SessionEnded(all, n + 1);
  }

  /** The session never answers more lines than it was given, and a goodbye
      can only be its last outcome. */
  lemma {:induction false} GoodbyeIsLast(turns: seq<Turn>)
    ensures |Session(turns)| <= |turns|
    ensures forall k :: 0 <= k < |Session(turns)| - 1 ==> Session(turns)[k] != Goodbye
    decreases |turns|
  {
    if turns != [] {
      var init := turns[..|turns| - 1];
      GoodbyeIsLast(init);
      var earlier := Session(init);
      if !Ended(earlier) {
        var o := Handle(turns[|turns| - 1]);
        assert Session(turns) == earlier + [o];
        assert forall k :: 0 <= k < |earlier| ==> (earlier + [o])[k] == earlier[k];
      }
    }
  }

  /** A query handed to the agent is a stripped, non-empty line that is not
      an exit word. */
  predicate IsCommand(q: string)
  {
    q != [] && !IsExitWord(q) && Strip(q) == q
  }

  /** A line that is answered was a command, and its output is the filtered
      reply to it. */
  lemma AnsweredIsCommand(t: Turn)
    ensures Handle(t).Answered? ==> IsCommand(Handle(t).query) && Handle(t).output == Output(false, t.reply)
  {
    StripIdempotent(t.line);
  }

  /** Every query the agent receives in a session is a command. */
  lemma {:induction false} AnsweredAreCommands(turns: seq<Turn>)
    ensures forall k :: 0 <= k < |Session(turns)| && Session(turns)[k].Answered? ==>
      IsCommand(Session(turns)[k].query)
    decreases |turns|
  {
    if turns != [] {
      var n := |turns| - 1;
      var init := turns[..n];
      AnsweredAreCommands(init);
      var earlier := Session(init);
      if !Ended(earlier) {
        var o := Handle(turns[n]);
        AnsweredIsCommand(turns[n]);
        var all := Session(turns);
        assert all == earlier + [o];
        forall k | 0 <= k < |all| && all[k].Answered?
          ensures IsCommand(all[k].query)
        {
          if k < |earlier| {
            assert all[k] == earlier[k];
          }
        }
      }
    }
  }

  /** The queries handed to the agent, in the order of the log. */
  function Queries(log: seq<Outcome>): seq<string>
    decreases |log|
  {
    if log == [] then []
    else
      var last := log[|log| - 1];
      Queries(log[..|log| - 1]) + (if last.Answered? then [last.query] else [])
  }

  /** The non-blank lines, stripped, in input order. */
  function Commands(turns: seq<Turn>): seq<string>
    decreases |turns|
  {
    if turns == [] then []
    else
      var q := Strip(turns[|turns| - 1].line);
      Commands(turns[..|turns| - 1]) + (if q == [] then [] else [q])
  }

  /** Before the first exit word, the agent receives every non-blank line,
      stripped, in input order, and nothing for a blank line. */
  lemma QueriesBeforeExit(turns: seq<Turn>)
    requires NoExit(turns)
    ensures Queries(Session(turns)) == Commands(turns)
  {
    SessionWithoutExit(turns);
    QueriesOfReplies(turns);
  }

  /** The queries among the lines' own outcomes are the stripped non-blank
      lines. */
  lemma {:induction false} QueriesOfReplies(turns: seq<Turn>)
    ensures Queries(Replies(turns)) == Commands(turns)
    decreases |turns|
  {
    if turns != [] {
      var n := |turns| - 1;
      var init := turns[..n];
      QueriesOfReplies(init);
      var rs := Replies(turns);
      assert rs == Replies(init) + [Reply(turns[n])];
      assert rs[..|rs| - 1] == Replies(init);
    }
  }

  /** The queries of two logs one after the other are the queries of each. */
  lemma {:induction false} QueriesAppend(a: seq<Outcome>, b: seq<Outcome>)
    ensures Queries(a + b) == Queries(a) + Queries(b)
    decreases |b|
  {
    if b == [] {
      assert a + b == a;
    } else {
      var m := |b| - 1;
      QueriesAppend(a, b[..m]);
      var all := a + b;
      assert all[..|all| - 1] == a + b[..m] && all[|all| - 1] == b[m];
    }
  }

  /** The loop's result: the agent receives exactly the non-blank lines before
      the first exit word, stripped, in input order, and nothing after it. */
  lemma QueriesWithExit(before: seq<Turn>, exit: Turn, after: seq<Turn>)
    requires NoExit(before) && IsExitWord(Strip(exit.line))
    ensures Queries(Session(before + [exit] + after)) == Commands(before)
  {
    SessionEndsAtFirstExit(before, exit, after);
    QueriesBeforeExit(before);
    var log := Session(before) + [Goodbye];
    assert log[..|log| - 1] == Session(before);
  }
}
