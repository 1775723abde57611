# Meeting agent console: stream filter and chat loop

This project models the deterministic part of the meeting agent's console
front end, `index.py`. There are two pieces:

- **`process_query`** filters the text deltas the agent streams back. It is a
  two-state machine over the flag `code_block`. A delta is dropped when it
  holds a skip phrase. A delta with `{` opens a code block and is dropped. A
  delta with `}` closes the block and is dropped. Any delta inside the block
  is dropped. Every other delta is written to the console verbatim, after two
  line feeds when it mentions `Answer`.
- **`main`** runs the read loop. Each line is stripped. A line that is `exit`,
  `quit` or `bye` in any case ends the session. A blank line draws a warning.
  Any other line is processed as a query.

Modules:

- `Text` (`text.dfy`) models the string operations the code uses:
  - substring membership (`sub in s`);
  - `str.strip()`;
  - `str.lower()`.
- `StreamFilter` (`stream_filter.dfy`) models the filter:
  - the machine as the functions `FlagAfter` and `Output` over a finite
    sequence of deltas;
  - the loop as the method `ProcessQuery`, proved equal to `Output(false, …)`;
  - lemmas about which test wins, composition of streams, the surviving
    chunks, and the skip list.
- `ChatLoop` (`chat_loop.dfy`) models the line dispatch:
  - `Classify` for a single line;
  - the session as the function `Session` over a finite sequence of turns.
    Each turn is a line together with the deltas the agent would stream for
    it;
  - the loop as the methods `HandleTurn` and `RunSession`;
  - lemmas about what a session contains.

The skip list is the one Python builds. The source writes `":" "query_meeting"`
as two adjacent literals, and Python joins them into the single phrase
`":query_meeting"` (`StreamFilter.SkipPhrases`).

## Model

| member | source | states |
|---|---|---|
| Text.Contains | index.py:40-57 | definition, no contract: Python's `sub in s`, i.e. `sub` occurs as a contiguous block somewhere in `s` |
| Text.MissingFirstChar | index.py:40-44 | a string without the first character of `sub` does not contain `sub` |
| Text.ContainsTransitive | index.py:40-44 | an occurrence of an occurrence is an occurrence |
| Text.Strip | index.py:75 | the result is a block of the input with only whitespace before and after it, and it neither starts nor ends with whitespace |
| Text.StripIdempotent | index.py:75 | stripping twice is stripping once |
| Text.StripEmpty | index.py:75 | the stripped line is empty exactly when the line is all whitespace |
| Text.Lower | index.py:78 | the result has the input's length and lower-cases each ASCII letter in place |
| StreamFilter.IsSkipped | index.py:40-44 | definition, no contract: the delta contains at least one of the eight skip phrases, with `":query_meeting"` joined |
| StreamFilter.Judge | index.py:40-60 | definition, no contract: the five tests in source order (skip phrase, `{`, `}`, inside a block, shown) |
| StreamFilter.NextFlag | index.py:46-55 | definition, no contract: `{` sets the flag, `}` clears it, every other verdict keeps it |
| StreamFilter.Rendered | index.py:57-60 | definition, no contract: a shown delta is written as is, after `"\n\n"` when it holds `Answer` |
| StreamFilter.Printed | index.py:54-60 | definition, no contract: a delta writes its rendering exactly when it passes all four dropping tests |
| StreamFilter.FlagAfter | index.py:34-55 | definition, no contract: the flag after the deltas, one step of `NextFlag` per delta |
| StreamFilter.Output | index.py:34-60 | definition, no contract: the streamed console text, each delta's `Printed` text in order |
| StreamFilter.ProcessQuery | index.py:34-60 | the loop, with the flag starting false, writes exactly `Output(false, deltas)` |
| StreamFilter.Snoc | index.py:36-60 | step lemma: one more delta makes one step of the machine from the flag the earlier deltas left |
| StreamFilter.SkipPhraseWins | index.py:40-44 | a delta with a skip phrase writes nothing and leaves the flag unchanged, even if it holds a brace |
| StreamFilter.OpenBraceWins | index.py:46-52 | a non-skipped delta with `{` writes nothing and sets the flag, even if it also holds `}` |
| StreamFilter.CloseBraceCloses | index.py:50-52 | a non-skipped delta with `}` and no `{` writes nothing and clears the flag |
| StreamFilter.InsideBlockHidden | index.py:54-55 | inside a code block, a delta without a skip phrase or brace writes nothing and the flag stays set |
| StreamFilter.ChunkShown | index.py:57-60 | outside a block, a delta without a skip phrase or brace is written verbatim, after `"\n\n"` when it holds `Answer` |
| StreamFilter.ComposeFlag | index.py:34-55 | the flag after `a + b` is the flag after `b` started from the flag `a` left |
| StreamFilter.Compose | index.py:34-60 | the output of `a + b` is the output of `a` followed by the output of `b` started from the flag `a` left |
| StreamFilter.CodeBlockSwallows | index.py:46-55 | once the block is open, deltas without a brace delta write nothing and the block stays open |
| StreamFilter.FlagSteady | index.py:46-52 | without a brace delta the flag never changes |
| StreamFilter.FlagIsLastBrace | index.py:40-52 | the flag is set exactly when the last brace delta holds `{`, or when there is no brace delta and it started set |
| StreamFilter.Survivors | index.py:40-55 | every surviving delta comes from the input and holds no skip phrase and no brace |
| StreamFilter.JoinedAppend | index.py:60 | writing two lists of survivors one after the other is writing their concatenation |
| StreamFilter.OutputIsSurvivors | index.py:34-60 | a query's output is its surviving deltas in input order with no separator, each `Answer` delta preceded by `"\n\n"` |
| StreamFilter.SkippedChunksInvisible | index.py:40-44 | removing every delta with a skip phrase changes neither the output nor the flag |
| StreamFilter.HalvesPassFilter | index.py:40-43 | neither `":"` nor `"query_meeting"` holds a skip phrase, a brace or `Answer` |
| StreamFilter.JoinedLiteral | index.py:40-43 | `":query_meeting"` is skipped, but streamed as `":"` then `"query_meeting"` it reaches the console whole |
| StreamFilter.RedundantPhrases | index.py:40-43 | dropping `"Action Input"` and `"Tool Call"` from the list skips exactly the same deltas |
| ChatLoop.IsExitWord | index.py:78 | definition, no contract: the lower-cased query is one of `exit`, `quit`, `bye` |
| ChatLoop.Classify | index.py:75-88 | exit exactly for an exit word after stripping; the warning exactly for a blank line that is not an exit word; otherwise the query is the stripped line, non-empty and not an exit word |
| ChatLoop.ClassifyCases | index.py:75-85 | a line draws the warning exactly when it is all whitespace, and a processed query is already stripped |
| ChatLoop.ExitWordIgnoresCase | index.py:78 | a line is an exit word exactly when it spells `exit`, `quit` or `bye` in any mixture of cases |
| ChatLoop.Handle | index.py:75-88 | definition, no contract: one line gives the goodbye, the warning, or the stripped query with its filtered output |
| ChatLoop.Session | index.py:71-88 | definition, no contract: lines are handled in order until the first goodbye, after which nothing is read |
| ChatLoop.SessionSnoc | index.py:71-88 | step lemma: one more line extends a session that has not ended with that line's outcome |
| ChatLoop.SessionEnded | index.py:78-80 | once a goodbye is logged, later lines change nothing |
| ChatLoop.HandleTurn | index.py:74-88 | one pass of the loop body produces the outcome `Handle` gives |
| ChatLoop.RunSession | index.py:71-88 | the loop, stopping at the first goodbye, produces exactly `Session(turns)` |
| ChatLoop.Reply | index.py:82-88 | definition, no contract: the warning for a blank line, otherwise the stripped query and its filtered output |
| ChatLoop.Replies | index.py:82-88 | each line's own outcome, in order, one per line |
| ChatLoop.ReplyIsNotGoodbye | index.py:82-88 | helper lemma: `Reply` never gives the goodbye |
| ChatLoop.HandleIsReply | index.py:78-88 | for a line that is not an exit word, the loop body gives the warning or the filtered answer |
| ChatLoop.SessionWithoutExit | index.py:34-88 | with no exit word, each line in order gives its own outcome, and each query is filtered from a fresh flag |
| ChatLoop.SessionEndsAtFirstExit | index.py:78-80 | the first exit word logs a goodbye after the earlier lines, and no later line is read |
| ChatLoop.GoodbyeIsLast | index.py:78-80 | a session has at most one outcome per line, and a goodbye can only be its last outcome |
| ChatLoop.AnsweredIsCommand | index.py:75-88 | an answered line's query is stripped, non-empty and not an exit word, and its output is the filtered reply |
| ChatLoop.AnsweredAreCommands | index.py:75-88 | every query of a session is stripped, non-empty and not an exit word |
| ChatLoop.QueriesBeforeExit | index.py:71-88 | before the first exit word, the agent receives every non-blank line, stripped, in order, and nothing for blank lines |
| ChatLoop.QueriesAppend | index.py:88 | the queries of two logs one after the other are the queries of each |
| ChatLoop.QueriesWithExit | index.py:71-88 | the agent receives exactly the non-blank lines before the first exit word, stripped, in order, and nothing after it |
| ChatLoop.QueriesOfReplies | index.py:82-88 | the queries among the lines' own outcomes are the stripped non-blank lines |

## Left out

- The agent itself is not modelled: the `AgentWorkflow`, `Memory` and the LLM run (index.py:22-29). The deltas for each query are an input (`Turn.reply`). So the model does not capture that the shared memory can make one query's reply depend on earlier queries.
- The async `stream_events` mechanics and the `isinstance(ev, AgentStream)` test (index.py:36-37) are not modelled. The input is the sequence of `AgentStream` deltas only.
- Console I/O is not modelled. The prompt, the banners, the goodbye and warning texts, and `flush` become values: `Output` strings and `Outcome` entries. The `"\n\n"` before an `Answer` chunk is what `print("\n")` writes.
- `input()` is not modelled; the lines are a finite sequence. A real stream can end without an exit word. At end of input `input()` raises `EOFError`, the generic `except Exception` handler (index.py:93-95) catches it, and the loop then prints the error message forever. The model's session simply ends with the last line.
- `KeyboardInterrupt` and the generic `except Exception` handler (index.py:90-95) are runtime exception handling and are not modelled.
- Text.Strip: handles ASCII whitespace only (tab, line feed, vertical tab, form feed, carriage return, 0x1C-0x1F, space). Python's `str.strip()` also removes Unicode whitespace.
- Text.Lower: lower-cases ASCII letters only. Python's `str.lower()` also folds other Unicode letters, so a non-ASCII spelling of an exit word is not covered.
- The `scheduler` and `notifier` agents (`agents/scheduler.py`, `agents/notifier.py`) are stubs and library wiring, and are not part of this model.
