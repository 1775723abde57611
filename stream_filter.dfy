/** The console filter that `process_query` applies to the agent's streamed
    text deltas: a two-state machine over the flag `code_block`, which drops
    tool chatter and anything between a `{` chunk and the next `}` chunk, and
    writes the rest to the console verbatim. */
module StreamFilter {
  import opened Text

  /** The phrases whose presence drops a chunk. The source writes the seventh
      entry as two adjacent literals, which Python joins into `":query_meeting"`. */
  const SkipPhrases: seq<string> :=
    ["Action", "Tool", "Action Input", "Tool Call", "Input", "handoff", ":query_meeting", "schedule_meeting"]

  /** `any(skip_phrase in content for skip_phrase in SkipPhrases)`. */
  predicate IsSkipped(chunk: string)
  {
    exists p :: p in SkipPhrases && Contains(chunk, p)
  }

  /** What the filter does with one chunk, the five tests taken in source order. */
  datatype Verdict =
    | Skip      // a skip phrase occurs in the chunk
    | Open      // the chunk has a `{`: the code block starts
    | Close     // the chunk has a `}`: the code block ends
    | Hidden    // inside a code block
    | Show      // written to the console

  function Judge(inBlock: bool, chunk: string): Verdict
  {
    if IsSkipped(chunk) then Skip
    else if Contains(chunk, "{") then Open
    else if Contains(chunk, "}") then Close
    else if inBlock then Hidden
    else Show
  }

  /** The value of `code_block` after the chunk. */
  function NextFlag(inBlock: bool, chunk: string): bool
  {
    match Judge(inBlock, chunk)
    case Open => true
    case Close => false
    case _ => inBlock
  }

  /** What the console receives for a shown chunk: `print("\n")` writes two line
      feeds before a chunk that mentions `Answer`, then the chunk itself. */
  function Rendered(chunk: string): string
  {
    if Contains(chunk, "Answer") then "\n\n" + chunk else chunk
  }

  /** The console text one chunk produces. */
  function Printed(inBlock: bool, chunk: string): string
  {
    if Judge(inBlock, chunk) == Show then Rendered(chunk) else ""
  }

  /** The flag after the filter has consumed `chunks`, starting from `start`. */
  function FlagAfter(start: bool, chunks: seq<string>): bool
    decreases |chunks|
  {
    if chunks == [] then start
    else NextFlag(FlagAfter(start, chunks[..|chunks| - 1]), chunks[|chunks| - 1])
  }

  /** The console text the filter writes for `chunks`, starting from `start`. */
  function Output(start: bool, chunks: seq<string>): string
    decreases |chunks|
  {
    if chunks == [] then ""
    else
      var init := chunks[..|chunks| - 1];
      Output(start, init) + Printed(FlagAfter(start, init), chunks[|chunks| - 1])
  }

  /** One more chunk: the machine's step on it, from the flag the earlier
      chunks left. */
  lemma Snoc(start: bool, before: seq<string>, chunk: string)
    ensures FlagAfter(start, before + [chunk]) == NextFlag(FlagAfter(start, before), chunk)
    ensures Output(start, before + [chunk]) == Output(start, before) + Printed(FlagAfter(start, before), chunk)
  {
    assert (before + [chunk])[..|before|] == before;
  }

  /** `process_query` once the agent has produced its stream of deltas: the flag
      starts false on every call, and the streamed part of the console text (the
      response banner aside) is exactly the text the filter specifies. */
  method ProcessQuery(deltas: seq<string>) returns (out: string)
    ensures out == Output(false, deltas)
  {
    out := "";
    var codeBlock := false;
    for i := 0 to |deltas|
      invariant out == Output(false, deltas[..i])
      invariant codeBlock == FlagAfter(false, deltas[..i])
    {
      var content := deltas[i];
      assert deltas[..i + 1][..i] == deltas[..i];
      if IsSkipped(content) {
        continue;
      }
      if Contains(content, "{") {
        codeBlock := true;
        continue;
      }
      if Contains(content, "}") {
        codeBlock := false;
        continue;
      }
      if codeBlock {
        continue;
      }
      if Contains(content, "Answer") {
        out := out + "\n\n";
      }
      out := out + content;
    }
    assert deltas[..|deltas|] == deltas;
  }

  // ---------------------------------------------------------------------------
  // One chunk at a time: which test wins.
  // ---------------------------------------------------------------------------

  /** A chunk with a skip phrase writes nothing and leaves the flag alone, even
      when it also holds a brace. */
  lemma SkipPhraseWins(start: bool, before: seq<string>, chunk: string)
    requires IsSkipped(chunk)
    ensures FlagAfter(start, before + [chunk]) == FlagAfter(start, before)
    ensures Output(start, before + [chunk]) == Output(start, before)
  {
    assert (before + [chunk])[..|before|] == before;
  }

  /** A chunk with no skip phrase and a `{` writes nothing and opens the code
      block, even when it also holds a `}`. */
  lemma OpenBraceWins(start: bool, before: seq<string>, chunk: string)
    requires !IsSkipped(chunk) && Contains(chunk, "{")
    ensures FlagAfter(start, before + [chunk])
    ensures Output(start, before + [chunk]) == Output(start, before)
  {
    assert (before + [chunk])[..|before|] == before;
  }

  /** A chunk with no skip phrase, no `{` and a `}` writes nothing and closes the
      code block. */
  lemma CloseBraceCloses(start: bool, before: seq<string>, chunk: string)
    requires !IsSkipped(chunk) && !Contains(chunk, "{") && Contains(chunk, "}")
    ensures !FlagAfter(start, before + [chunk])
    ensures Output(start, before + [chunk]) == Output(start, before)
  {
    assert (before + [chunk])[..|before|] == before;
  }

  /** Inside a code block, a chunk with neither a skip phrase nor a brace
      writes nothing and the block stays open. */
  lemma InsideBlockHidden(start: bool, before: seq<string>, chunk: string)
    requires FlagAfter(start, before)
    requires !IsSkipped(chunk) && !Contains(chunk, "{") && !Contains(chunk, "}")
    ensures FlagAfter(start, before + [chunk])
    ensures Output(start, before + [chunk]) == Output(start, before)
  {
    assert (before + [chunk])[..|before|] == before;
  }

  /** Outside a code block, a chunk with neither a skip phrase nor a brace is
      written verbatim, after two line feeds when it mentions `Answer`. */
  lemma ChunkShown(start: bool, before: seq<string>, chunk: string)
    requires !FlagAfter(start, before)
    requires !IsSkipped(chunk) && !Contains(chunk, "{") && !Contains(chunk, "}")
    ensures !FlagAfter(start, before + [chunk])
    ensures Output(start, before + [chunk]) == Output(start, before)
              + (if Contains(chunk, "Answer") then "\n\n" + chunk else chunk)
  {
    assert (before + [chunk])[..|before|] == before;
  }

  // ---------------------------------------------------------------------------
  // Whole streams.
  // ---------------------------------------------------------------------------

  /** Filtering a stream in two pieces leaves the flag that filtering it whole
      leaves, the second piece starting from the flag the first one left. */
  lemma {:induction false} ComposeFlag(start: bool, a: seq<string>, b: seq<string>)
    ensures FlagAfter(start, a + b) == FlagAfter(FlagAfter(start, a), b)
    decreases |b|
  {
    if b == [] {
      assert a + b == a;
    } else {
      var b' := b[..|b| - 1];
      var last := b[|b| - 1];
      ComposeFlag(start, a, b');
      assert (a + b)[..|a + b| - 1] == a + b';
      assert (a + b)[|a + b| - 1] == last;
    }
  }

  /** Regrouping a concatenation, with every part named, so that the solver
      need not look inside the parts. */
  lemma Regroup(x: string, y: string, z: string, xy: string, yz: string, xyz: string)
    requires xy == x + y && yz == y + z && xyz == xy + z
    ensures xyz == x + yz
  {
  }

  /** Filtering a stream in two pieces writes what filtering it whole writes. */
  lemma {:induction false} Compose(start: bool, a: seq<string>, b: seq<string>)
    ensures Output(start, a + b) == Output(start, a) + Output(FlagAfter(start, a), b)
    decreases |b|
  {
    if b == [] {
      assert a + b == a;
      assert Output(FlagAfter(start, a), b) == [];
    } else {
      var b' := b[..|b| - 1];
      var last := b[|b| - 1];
      Compose(start, a, b');
      ComposeFlag(start, a, b');
      assert (a + b)[..|a + b| - 1] == a + b';
      assert (a + b)[|a + b| - 1] == last;
      var shown := Printed(FlagAfter(start, a + b'), last);
      assert Output(start, a + b) == Output(start, a + b') + shown;
      assert Output(FlagAfter(start, a), b) == Output(FlagAfter(start, a), b') + shown;
      Regroup(Output(start, a), Output(FlagAfter(start, a), b'), shown,
              Output(start, a + b'), Output(FlagAfter(start, a), b), Output(start, a + b));
    }
  }

  /** A chunk that the brace tests act on: no skip phrase, and a `{` or a `}`. */
  predicate IsBraceChunk(chunk: string)
  {
    !IsSkipped(chunk) && (Contains(chunk, "{") || Contains(chunk, "}"))
  }

  /** No chunk of `chunks` is a brace chunk. */
  predicate NoBraceChunk(chunks: seq<string>)
  {
    forall k :: 0 <= k < |chunks| ==> !IsBraceChunk(chunks[k])
  }

  lemma NoBraceChunkAppend(chunks: seq<string>, chunk: string)
    ensures NoBraceChunk(chunks + [chunk]) <==> NoBraceChunk(chunks) && !IsBraceChunk(chunk)
  {
    assert forall k :: 0 <= k < |chunks| ==> (chunks + [chunk])[k] == chunks[k];
    assert (chunks + [chunk])[|chunks|] == chunk;
  }

  /** Once the code block is open, a run of chunks without a brace chunk writes
      nothing and leaves it open. */
  lemma {:induction false} CodeBlockSwallows(start: bool, chunks: seq<string>)
    requires start && NoBraceChunk(chunks)
    ensures FlagAfter(start, chunks)
    ensures Output(start, chunks) == ""
    decreases |chunks|
  {
    if chunks != [] {
      CodeBlockSwallows(start, chunks[..|chunks| - 1]);
    }
  }

  /** Without a brace chunk the flag never moves. */
  lemma {:induction false} FlagSteady(start: bool, chunks: seq<string>)
    requires NoBraceChunk(chunks)
    ensures FlagAfter(start, chunks) == start
    decreases |chunks|
  {
    if chunks != [] {
      FlagSteady(start, chunks[..|chunks| - 1]);
    }
  }

  /** The last brace chunk of `chunks` sits at `j` and holds a `{`. */
  ghost predicate OpenedAt(chunks: seq<string>, j: int)
  {
    0 <= j < |chunks| && IsBraceChunk(chunks[j]) && Contains(chunks[j], "{")
    && NoBraceChunk(chunks[j + 1..])
  }

  /** The flag, read off the stream without running the machine: the code block
      is open exactly when the last brace chunk has a `{`, or when there is no
      brace chunk and it was open at the start. */
  ghost predicate OpenAfter(start: bool, chunks: seq<string>)
  {
    (exists j :: OpenedAt(chunks, j)) || (start && NoBraceChunk(chunks))
  }

  lemma {:induction false} FlagIsLastBrace(start: bool, chunks: seq<string>)
    ensures FlagAfter(start, chunks) <==> OpenAfter(start, chunks)
    decreases |chunks|
  {
    if chunks != [] {
      var n := |chunks| - 1;
      var init := chunks[..n];
      var last := chunks[n];
      FlagIsLastBrace(start, init);
      if IsBraceChunk(last) {
        // Only the last chunk can be the last brace chunk.
        assert chunks[n + 1..] == [];
        if Contains(last, "{") {
          assert OpenedAt(chunks, n);
        } else {
          forall j | 0 <= j < n
            ensures !OpenedAt(chunks, j)
          {
            assert chunks[j + 1..][n - j - 1] == last;
          }
          assert !NoBraceChunk(chunks) by {
            assert IsBraceChunk(chunks[n]);
          }
        }
      } else {
        assert FlagAfter(start, chunks) == FlagAfter(start, init);
        forall j | 0 <= j < n
          ensures OpenedAt(chunks, j) <==> OpenedAt(init, j)
        {
          assert chunks[j + 1..] == init[j + 1..] + [last];
          NoBraceChunkAppend(init[j + 1..], last);
        }
        assert !OpenedAt(chunks, n);
        assert NoBraceChunk(chunks) <==> NoBraceChunk(init) by {
          assert chunks == init + [last];
          NoBraceChunkAppend(init, last);
        }
        if exists j :: OpenedAt(init, j) {
          var j :| OpenedAt(init, j);
          assert OpenedAt(chunks, j);
        }
        if exists j :: OpenedAt(chunks, j) {
          var j :| OpenedAt(chunks, j);
          assert OpenedAt(init, j);
        }
      }
    }
  }

  /** A chunk survives the filter at position `i`: it has no skip phrase and no
      brace, and the code block is not open when it arrives. */
  ghost predicate Survives(chunks: seq<string>, i: int)
  {
    0 <= i < |chunks| && !IsSkipped(chunks[i])
    && !Contains(chunks[i], "{") && !Contains(chunks[i], "}")
    && !OpenAfter(false, chunks[..i])
  }

  /** The surviving chunks, in input order. */
  ghost function Survivors(chunks: seq<string>): (r: seq<string>)
    ensures forall x :: x in r ==> x in chunks && !IsSkipped(x) && !Contains(x, "{") && !Contains(x, "}")
    decreases |chunks|
  {
    if chunks == [] then []
    else
      var n := |chunks| - 1;
      Survivors(chunks[..n]) + (if Survives(chunks, n) then [chunks[n]] else [])
  }

  /** The surviving chunks written one after another, each as the console shows it. */
  function Joined(parts: seq<string>): string
    decreases |parts|
  {
    if parts == [] then "" else Joined(parts[..|parts| - 1]) + Rendered(parts[|parts| - 1])
  }

  lemma {:induction false} JoinedAppend(parts: seq<string>, more: seq<string>)
    ensures Joined(parts + more) == Joined(parts) + Joined(more)
    decreases |more|
  {
    if more == [] {
      assert parts + more == parts;
    } else {
      var m := |more| - 1;
      JoinedAppend(parts, more[..m]);
      var all := parts + more;
      assert all[..|all| - 1] == parts + more[..m] && all[|all| - 1] == more[m];
      assert Joined(all) == Joined(parts + more[..m]) + Rendered(more[m]);
      assert Joined(more) == Joined(more[..m]) + Rendered(more[m]);
    }
  }

  /** The console receives exactly the surviving chunks, in input order and with
      no separator, each `Answer` chunk preceded by two line feeds. */
  lemma {:induction false} OutputIsSurvivors(chunks: seq<string>)
    ensures Output(false, chunks) == Joined(Survivors(chunks))
    decreases |chunks|
  {
    if chunks != [] {
      var n := |chunks| - 1;
      var init := chunks[..n];
      OutputIsSurvivors(init);
      FlagIsLastBrace(false, init);
      assert chunks[..n] == init;
      JoinedAppend(Survivors(init), if Survives(chunks, n) then [chunks[n]] else []);
      assert Joined([chunks[n]]) == Rendered(chunks[n]) by {
        assert [chunks[n]][..0] == [];
      }
    }
  }

  /** `chunks` without the chunks that hold a skip phrase. */
  function DropSkipped(chunks: seq<string>): (r: seq<string>)
    decreases |chunks|
  {
    if chunks == [] then []
    else
      var n := |chunks| - 1;
      DropSkipped(chunks[..n]) + (if IsSkipped(chunks[n]) then [] else [chunks[n]])
  }

  /** Chunks with a skip phrase are invisible to the filter: removing them all
      changes neither the console text nor the flag. */
  lemma {:induction false} SkippedChunksInvisible(start: bool, chunks: seq<string>)
    ensures Output(start, DropSkipped(chunks)) == Output(start, chunks)
    ensures FlagAfter(start, DropSkipped(chunks)) == FlagAfter(start, chunks)
    decreases |chunks|
  {
    if chunks != [] {
      var n := |chunks| - 1;
      var init, last := chunks[..n], chunks[n];
      SkippedChunksInvisible(start, init);
      assert chunks == init + [last];
      if IsSkipped(last) {
        assert DropSkipped(chunks) == DropSkipped(init);
        SkipPhraseWins(start, init, last);
      } else {
        var d := DropSkipped(init);
        assert DropSkipped(chunks) == d + [last];
        Snoc(start, d, last);
        Snoc(start, init, last);
      }
    }
  }

  // ---------------------------------------------------------------------------
  // The skip list as Python reads it.
  // ---------------------------------------------------------------------------

  /** Neither half of the joined literal contains a skip phrase, a brace or
      `Answer`. */
  lemma HalvesPassFilter()
    ensures !IsSkipped(":") && !IsSkipped("query_meeting")
    ensures !Contains(":", "{") && !Contains(":", "}") && !Contains(":", "Answer")
    ensures !Contains("query_meeting", "{") && !Contains("query_meeting", "}")
    ensures !Contains("query_meeting", "Answer")
  {
    forall i | 0 <= i < |SkipPhrases|
      ensures !Contains(":", SkipPhrases[i]) && !Contains("query_meeting", SkipPhrases[i])
    {
      var p := SkipPhrases[i];
      assert i == 0 || i == 1 || i == 2 || i == 3 || i == 4 || i == 5 || i == 6 || i == 7;
      assert |p| > 1 && p[0] !in "query_meeting";
      if Contains(":", p) {
        ContainsNotLonger(":", p);
      }
      MissingFirstChar("query_meeting", p);
    }
    MissingFirstChar(":", "{");
    MissingFirstChar(":", "}");
    MissingFirstChar(":", "Answer");
    MissingFirstChar("query_meeting", "{");
    MissingFirstChar("query_meeting", "}");
    MissingFirstChar("query_meeting", "Answer");
  }

  /** The joined literal is a skip phrase, but its two halves are not: a tool
      name streamed as `":"` then `"query_meeting"` reaches the console. */
  lemma JoinedLiteral()
    ensures IsSkipped(":query_meeting")
    ensures !IsSkipped(":") && !IsSkipped("query_meeting")
    ensures Output(false, [":", "query_meeting"]) == ":query_meeting"
  {
    assert SkipPhrases[6] == ":query_meeting";
    assert OccursAt(":query_meeting", ":query_meeting", 0);
    assert Contains(":query_meeting", SkipPhrases[6]);
    HalvesPassFilter();
    Snoc(false, [], ":");
    Snoc(false, [":"], "query_meeting");
    assert [":"] == [] + [":"];
    assert [":", "query_meeting"] == [":"] + ["query_meeting"];
  }

  /** `"Action Input"` and `"Tool Call"` add nothing to the skip list: each
      contains a shorter phrase of the list, so the six other phrases drop
      exactly the same chunks. */
  lemma RedundantPhrases(chunk: string)
    ensures IsSkipped(chunk) <==>
      exists p :: p in ["Action", "Tool", "Input", "handoff", ":query_meeting", "schedule_meeting"]
                  && Contains(chunk, p)
  {
    assert SkipPhrases[2] == "Action Input" && SkipPhrases[3] == "Tool Call";
    assert OccursAt("Action Input", "Action", 0);
    assert OccursAt("Tool Call", "Tool", 0);
    if Contains(chunk, "Action Input") {
      ContainsTransitive(chunk, "Action Input", "Action");
    }
    if Contains(chunk, "Tool Call") {
      ContainsTransitive(chunk, "Tool Call", "Tool");
    }
  }
}
