# npcsh interactive modes, modelled in Dafny

This project models the interactive modes of `npcsh/modes.py`. Each mode is a
terminal read-eval-print loop around an external capability:

- **Spool mode** (`enter_spool_mode`) is a conversation with a language model.
  - The conversation is kept as an ordered transcript of role-tagged messages.
  - The transcript can be seeded from the last rows of the command history.
  - Each turn the stripped input is appended as a `user` entry.
  - The transcript is then replaced by whatever the model returns.
  - One history record is written per turn.
  - The mode returns the newline-join of the `assistant` contents.
- **Bash mode** (`enter_bash_mode`) relays lines to a shell.
  - The loop itself follows `cd <path>` and tracks the directory.
  - Every other line runs in the shell, in the tracked directory.
  - Trimmed standard output, then marked standard error, are collected.
  - The mode returns the newline-join of the collected lines.
  - It leaves the process in the directory the last successful `cd` entered.
- **Notes mode** (`enter_notes_mode` and `save_note`) appends every note as a
  bullet to `README.md` in the working directory. It writes one history record
  per note.
- **Table helpers** (`create_new_table`, `delete_table`, `add_observation`)
  build SQL text: `CREATE TABLE`, `DROP TABLE IF EXISTS`, `PRAGMA table_info`,
  and an `INSERT` with one `?` placeholder per non-`id` column.

The model stands in for the external parts as follows.

- **Input.** Terminal input is a sequence of events (`Console.Event`). Each
  event is a line or a Ctrl-C (`KeyboardInterrupt`). Once the events are used
  up, `input()` raises `EOFError`.
- **External calls.** These are passed in as function parameters. The
  language model is `Spool.Conversation`. The shell, the directory lookup and
  `os.path.expanduser` are fields of `Bash.Host`. The history reads are
  `get_all`, and for `add_observation` what `PRAGMA table_info` fetches.
- **Results.** The transcripts sent to the model and the history records
  written are returned as traces, alongside each mode's result. So is the file
  system after notes mode (a map from path to contents).

Each loop is a `method` with a `while` loop. Its postcondition ties its results
to a recursive specification function over the events: `Spool.Loop`, `Bash.Run`
and `Notes.Taken`. The properties of each mode are lemmas about those functions.

Python's `str.strip`, `str.lower`, `str.startswith` and `sep.join` are
modelled in `PyStr`, with an independent description of `strip()`
(`IsStripped`) proved to determine it. Whitespace and case are modelled on
the ASCII range. `PyStr.Split` is not called by the modes. It is there as the
inverse of the comma join of line 214, so that the placeholder list can be
shown to split back into its parts.

Four behaviours of the code at its edges are worth stating on their own:

- **The bash loop leaves the process in the tracked directory.** The final
  `os.chdir(current_dir)` (line 53) goes to the directory the last successful
  `cd` entered, not back to where the loop started (`Bash.LastCdIsKept`).
  With no successful `cd` it goes back to the start (`Bash.NoEnterKeepsDir`).
- **The bash exit token is case-sensitive.** The bash loop compares the
  stripped line with `/bq` exactly (line 19; `Bash.ExitIsCaseSensitive`).
  The spool and notes loops lower-case the line first.
- **The notes loop can raise.** Its `input()` call (line 65) is not inside a
  `try`, so end of input and Ctrl-C propagate out of `enter_notes_mode`
  (`Notes.Session.error`).
- **The spool loop can raise `IndexError`.** An empty transcript returned by
  the model makes `spool_context[-1]` (line 174) raise. Only
  `KeyboardInterrupt` and `EOFError` are caught, so the mode raises it
  (`Spool.LoopCrashes`).

## Model

| member | source | states |
|---|---|---|
| Spool.Seeded | npcsh/modes.py:156-158 | history rows given newest-first become a transcript of length 2N, oldest row first, each row as a `user` entry holding its command followed by an `assistant` entry holding its output |
| Spool.Inherit | npcsh/modes.py:151-158 | the loop builds exactly the seeded transcript of the rows `get_all(limit=inherit_last)` returns; empty, without consulting the history, when `inherit_last <= 0` |
| Spool.SeededReplies | npcsh/modes.py:156-158 | the assistant contents of a seeded transcript are the stored outputs, oldest row first, one per row |
| Spool.SpoolStops | npcsh/modes.py:161-179 | end of input, Ctrl-C or a line whose stripped lower-cased form is `/sq` ends the loop with the transcript unchanged, no model call and no history record |
| Spool.ExitSpellings | npcsh/modes.py:162-163 | the exit token in any ASCII case with any surrounding whitespace is recognised |
| Spool.LoopCrashes | npcsh/modes.py:168-174 | when the model returns an empty transcript the turn's call is recorded, no history record is written and the loop raises |
| Spool.LoopContinues | npcsh/modes.py:167-176 | a turn sends the transcript plus the stripped input as a `user` entry, continues from exactly the model's answer and writes one record (input, `["spool"]`, content of the answer's last entry, cwd) |
| Spool.SpoolTurns | npcsh/modes.py:160-176 | over a whole run: call k sends the previous transcript plus one `user` entry holding the stripped line at position k, which is a line and not the exit token; calls are made for exactly the leading such lines, since a finished run stops at the event after its last call; every answered call yields exactly one record holding that line and the answer's last content; a crash is an empty answer to the last call; and otherwise the final transcript is the last answer |
| Spool.SpoolLoop | npcsh/modes.py:160-179 | the `while True` loop computes exactly the final transcript, the calls made, the records written and whether it raised, as `Spool.Loop` gives them |
| Spool.EnterSpoolMode | npcsh/modes.py:149-183 | the mode returns the newline-join of the assistant contents of the final transcript in transcript order, or raises `IndexError`; its model calls and history records are those of the loop |
| Spool.RepliesConcat | npcsh/modes.py:181-183 | the assistant contents of a concatenation are those of its parts, in order |
| Spool.SpoolReplies | npcsh/modes.py:168-183 | with a model that appends one assistant entry, the loop never raises and its replies are the starting replies followed by the recorded output of every turn |
| Spool.InheritedRepliesFirst | npcsh/modes.py:153-183 | with such a model, the joined contents are the inherited outputs oldest first (inherited entries included), then each turn's recorded reply in order |
| Bash.Report | npcsh/modes.py:36-49 | one shell command appends at most two lines |
| Bash.Step | npcsh/modes.py:24-49 | a `cd ` line appends at least one line and any line at most two; the directory after a line is the one before it or an existing directory |
| Bash.EnterBashMode | npcsh/modes.py:12-54 | the loop returns the newline-join of all lines appended and leaves the process in the last tracked directory, as `Bash.Run` gives them |
| Bash.ExitIsCaseSensitive | npcsh/modes.py:18-21 | a line made of a token padded with whitespace leaves the loop exactly when the token is `/bq`; every other token, `/BQ` included, is run as a command |
| Bash.FinalDirExists | npcsh/modes.py:24-34 | the loop ends in the directory it started in or in an existing directory |
| Bash.NoEnterKeepsDir | npcsh/modes.py:24-53 | when no line before the loop leaves is a `cd ` into an existing directory, the loop ends in the directory it started in |
| Bash.OutputBound | npcsh/modes.py:23-49 | a run over n events appends at most 2n lines |
| Bash.LastCdIsKept | npcsh/modes.py:24-53 | if the line at j is a `cd ` into an existing directory, resolved from the directory tracked at j, and no later line before the loop leaves enters another, the loop ends (and the process stays) in that directory |
| Bash.CdTargetNonEmpty | npcsh/modes.py:18-25 | a stripped line that starts with `cd ` always has a non-empty `line[3:].strip()` target |
| Notes.ReadmePath | npcsh/modes.py:77 | the README path starts with the directory, ends with `README.md`, and has a separator added when the directory does not end with one |
| Notes.NoteText | npcsh/modes.py:80 | the appended text is a newline, `- `, the note and a newline |
| Notes.AppendTo | npcsh/modes.py:79-80 | appending creates the file when absent, extends its contents by exactly the text, and leaves every other file untouched |
| Notes.SaveNote | npcsh/modes.py:75-83 | one note appends its text to `README.md` in the directory and yields the record (`/note <note>`, `["note"]`, empty output, directory) |
| Notes.Records | npcsh/modes.py:83 | one history record per note, in note order |
| Notes.AppendTwice | npcsh/modes.py:79-80 | two appends to one file are one append of both texts |
| Notes.WrittenAppend | npcsh/modes.py:80 | the text for one more note follows the text already written |
| Notes.EnterNotesMode | npcsh/modes.py:61-83 | the loop returns the exception that ended it (none on the exit token), the records of exactly the notes taken, and the file system with all their texts appended to `README.md` in order (unchanged when no note was taken) |
| Notes.CleanExitReadsToken | npcsh/modes.py:64-70 | a clean end means the exit token was read at some j, every event before it is a line that is not the token, and the notes are exactly those lines, stripped, in order (`Stripped`) |
| Notes.NotesUntilToken | npcsh/modes.py:64-70 | lines that are not the exit token followed by the token give a clean end whose notes are exactly those lines, stripped, in order (`Stripped`) |
| Notes.StrippedAt | npcsh/modes.py:65 | entry k of the stripped lines from i is the line at i + k with `strip()` applied |
| Notes.ExitSpelling | npcsh/modes.py:65-68 | the exit token in any ASCII case with any surrounding whitespace ends the loop cleanly with nothing written |
| Tables.ReadStripped | npcsh/modes.py:187 | a read succeeds exactly on a line event, and what it returns is already stripped: stripping it again changes nothing and it has no whitespace at either end |
| Tables.CreateNewTable | npcsh/modes.py:186-193 | the statement is built from the first two stripped lines, and it raises when either read fails |
| Tables.CreateRoundTrip | npcsh/modes.py:190-191 | a table name without spaces and the column list are recovered from the `CREATE TABLE` text |
| Tables.DeleteTable | npcsh/modes.py:198-200 | the statement is built from the first stripped line, and it raises when the read fails |
| Tables.DropRoundTrip | npcsh/modes.py:200 | the table name is recovered from the `DROP TABLE IF EXISTS` text |
| Tables.DataColumns | npcsh/modes.py:207 | the selected columns never include `id` and are no more than the table's columns |
| Tables.DataColumnsConcat | npcsh/modes.py:207 | filtering out `id` works piecewise, so the table's column order is kept |
| Tables.DataColumnsNoId | npcsh/modes.py:207 | without an `id` column every column is kept, in order |
| Tables.DataColumnsDropsId | npcsh/modes.py:207 | an `id` column contributes nothing wherever it appears |
| Tables.PlaceholderCount | npcsh/modes.py:214 | the placeholder list for n columns has exactly n `?` and n-1 commas |
| Tables.PlaceholderSplit | npcsh/modes.py:214 | splitting the placeholder list on commas gives n placeholders |
| Tables.AddObservation | npcsh/modes.py:205-215 | the observation succeeds exactly when a line is read for every non-`id` column; then the INSERT text has the comma-joined columns and one `?` each, and the parameters are the stripped lines in column order; otherwise it raises the exception of the first failed read |
| PyStr.StripUnique | npcsh/modes.py:18 | `strip()` keeps exactly the slice that is surrounded by whitespace and has non-space ends |
| PyStr.StripEnds | npcsh/modes.py:18 | what `strip()` returns neither starts nor ends with whitespace |
| PyStr.StripIdempotent | npcsh/modes.py:25 | stripping a stripped string changes nothing |
| PyStr.StripPadded | npcsh/modes.py:162 | `strip()` removes surrounding whitespace and nothing else |
| PyStr.LowerAt | npcsh/modes.py:163 | `lower()` maps each character to its lower case, ASCII letters only |
| PyStr.LowerIdempotent | npcsh/modes.py:67 | lower-casing twice is lower-casing once |
| PyStr.JoinAppend | npcsh/modes.py:54 | joining one more part adds the separator and the part |
| PyStr.SplitJoin | npcsh/modes.py:214 | a comma-joined list whose parts hold no comma splits back into its parts |

## Left out

- `enter_observation_mode`: it loops with no exit and its `conn.close()` cannot be reached. It depends entirely on language-model calls and JSON output.
- `initial_table_print`, and executing or committing any SQL statement. Those are the SQLite engine's behaviour; only the statement text is modelled.
- `enter_whisper_mode`: an empty stub.
- All `print` output and the prompt texts passed to `input()`.
- Ctrl-C while the model or the shell is running. Only the interrupt raised by `input()` is modelled.
- Non-ASCII whitespace and letters: `strip()` and `lower()` are modelled on ASCII.
- Bash.Host: the set of existing directories is fixed for the whole run. Directories created or removed by the shell commands themselves are not modelled.
- Bash.Step: `os.chdir` errors other than a missing directory are not modelled. Examples are a path that is a file, or a directory without permission. The code reports those through its generic `Error executing bash command` branch.
- Bash.EnterBashMode: a failure of the final `os.chdir(current_dir)` is not modelled. That happens if the tracked directory was removed during the run.
- Spool.Conversation: the model call is a function of the transcript and model name, so two identical calls give identical answers. It always returns: an exception raised by `get_ollama_conversation`, which propagates out of `enter_spool_mode` because only `KeyboardInterrupt` and `EOFError` are caught (line 177), is not modelled.
- Spool.EnterSpoolMode: exceptions raised by `command_history.get_all` or `command_history.add` are not modelled; both calls always succeed here. `IndexError` is therefore the only exception the model's spool mode raises.
- Notes.EnterNotesMode: an exception raised by `command_history.add` inside `save_note` (line 83), which would propagate out of the notes loop, is not modelled.
- Spool.SpoolLoop: the working directory recorded by every spool record is one fixed value, since nothing in the loop changes it.
- Notes.AppendTo: failures to open or write `README.md` (permissions, disk full) are not modelled.
- `command_history.add` and `get_all` are seen only through the records written (returned as traces) and the rows read (a function of the limit).
- Tables.CreateNewTable, Tables.DeleteTable, Tables.AddObservation: the table name and column list are spliced into the SQL text unquoted, exactly as the code does. What SQLite makes of such text is not modelled.
