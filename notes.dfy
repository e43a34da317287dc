/** The notes loop (`enter_notes_mode`) and `save_note`: every line that is
    not the exit token is appended as a bullet to `README.md` in the working
    directory and recorded in the command history. */
module Notes {
  import opened PyStr
  import opened Console
  import opened History

  const ExitToken := "/nq"
  const NoteTag := "note"
  const Readme := "README.md"

  /** File contents by path; a path that is absent names no file. */
  type Files = map<string, string>

  /** `os.path.join(cwd, "README.md")`: a separator is added unless `cwd`
      is empty or already ends with one. */
  function ReadmePath(cwd: string): (p: string)
    ensures StartsWith(p, cwd)
    ensures |p| >= |Readme| && p[|p| - |Readme|..] == Readme
    ensures |p| > |cwd|
    ensures cwd != [] && cwd[|cwd| - 1] != '/' ==> p[|cwd|] == '/'
  {
    if cwd == [] || cwd[|cwd| - 1] == '/' then cwd + Readme else cwd + "/" + Readme
  }

  /** The text appended for one note. */
  function NoteText(note: string): (t: string)
    ensures |t| == |note| + 4
    ensures t[..3] == "\n- " && t[3..|t| - 1] == note && t[|t| - 1] == '\n'
  {
    "\n- " + note + "\n"
  }

  /** The history record written for one note. */
  function NoteRecord(note: string, cwd: string): Record {
    Record("/note " + note, [NoteTag], "", cwd)
  }

  /** Opening `path` with mode `"a"` and writing `text`: the file is created
      empty when it does not exist. */
  function AppendTo(files: Files, path: string, text: string): (r: Files)
    ensures r.Keys == files.Keys + {path}
    ensures r[path] == (if path in files then files[path] else "") + text
    ensures forall p :: p in files && p != path ==> r[p] == files[p]
  {
    files[path := (if path in files then files[path] else "") + text]
  }

  /** The effect of `save_note(note, command_history)` from directory `cwd`. */
  datatype Saved = Saved(files: Files, record: Record)

  function SaveNote(note: string, cwd: string, files: Files): (r: Saved)
    ensures r.files == AppendTo(files, ReadmePath(cwd), NoteText(note))
    ensures r.record == Record("/note " + note, [NoteTag], "", cwd)
  {
    Saved(AppendTo(files, ReadmePath(cwd), NoteText(note)), NoteRecord(note, cwd))
  }

  /** The exit test, applied to the already stripped note. */
  predicate IsExit(note: string) {
    Lower(note) == ExitToken
  }

  /** The notes taken from position `i` on, in order, and how the loop ends:
      `None` on the exit token; the exception `input()` raised otherwise,
      since the loop does not catch end of input or Ctrl-C. */
  datatype Session = Session(notes: seq<string>, error: Option<PyError>)

  function Taken(inputs: seq<Event>, i: nat): (s: Session)
    decreases |inputs| - i
  {
    if i >= |inputs| || inputs[i].Interrupt? then Session([], Some(ReadError(inputs, i)))
    else
      var note := Strip(inputs[i].text);
      if IsExit(note) then Session([], None)
      else
        var rest := Taken(inputs, i + 1);
        Session([note] + rest.notes, rest.error)
  }

  /** All the text appended for `notes`, in order. */
  function Written(notes: seq<string>): string {
    if notes == [] then "" else NoteText(notes[0]) + Written(notes[1..])
  }

  /** The history records written for `notes`, in order. */
  function Records(notes: seq<string>, cwd: string): (h: seq<Record>)
    ensures |h| == |notes|
    ensures forall k :: 0 <= k < |notes| ==> h[k] == NoteRecord(notes[k], cwd)
  {
    if notes == [] then [] else [NoteRecord(notes[0], cwd)] + Records(notes[1..], cwd)
  }

  lemma {:induction false} WrittenAppend(notes: seq<string>, note: string)
    ensures Written(notes + [note]) == Written(notes) + NoteText(note)
  {
    if notes == [] {
      assert [note][1..] == [];
    } else {
      assert (notes + [note])[1..] == notes[1..] + [note];
      WrittenAppend(notes[1..], note);
    }
  }

  /** Two appends to one file are one append of both texts. */
  lemma AppendTwice(files: Files, path: string, a: string, b: string)
    ensures AppendTo(AppendTo(files, path, a), path, b) == AppendTo(files, path, a + b)
  {
    var x := if path in files then files[path] else "";
    assert (x + a) + b == x + (a + b);
  }

  lemma TakenStops(inputs: seq<Event>, i: nat)
    requires i >= |inputs| || inputs[i].Interrupt? || IsExit(Strip(inputs[i].text))
    ensures Taken(inputs, i).notes == []
  {}

  lemma TakenContinues(inputs: seq<Event>, i: nat, taken: seq<string>)
    requires i < |inputs| && inputs[i].Line? && !IsExit(Strip(inputs[i].text))
    ensures var rest := Taken(inputs, i + 1);
      taken + Taken(inputs, i).notes == (taken + [Strip(inputs[i].text)]) + rest.notes
      && Taken(inputs, i).error == rest.error
  {
    var rest := Taken(inputs, i + 1);
    assert taken + ([Strip(inputs[i].text)] + rest.notes) == (taken + [Strip(inputs[i].text)]) + rest.notes;
  }

  /** Saving one more note after `taken` appends its text and its record. */
  lemma SavedOneMore(files: Files, cwd: string, taken: seq<string>, note: string)
    ensures var before := if taken == [] then files else AppendTo(files, ReadmePath(cwd), Written(taken));
      var saved := SaveNote(note, cwd, before);
      && saved.files == AppendTo(files, ReadmePath(cwd), Written(taken + [note]))
      && Records(taken + [note], cwd) == Records(taken, cwd) + [saved.record]
  {
    WrittenAppend(taken, note);
    if taken == [] {
      assert [] + [note] == [note];
      assert Written([]) + NoteText(note) == NoteText(note);
    } else {
      AppendTwice(files, ReadmePath(cwd), Written(taken), NoteText(note));
    }
  }

  /** `enter_notes_mode` from directory `cwd`: what is left in the file
      system, the history records written, and the exception that ended the
      loop if it did not end on the exit token. */
  method EnterNotesMode(cwd: string, files: Files, inputs: seq<Event>)
    returns (raised: Option<PyError>, written: Files, history: seq<Record>)
    ensures var s := Taken(inputs, 0);
      && raised == s.error
      && history == Records(s.notes, cwd)
      && written == if s.notes == [] then files else AppendTo(files, ReadmePath(cwd), Written(s.notes))
  {
    ghost var whole := Taken(inputs, 0);
    ghost var taken: seq<string> := [];
    written, history := files, [];
    var i := 0;
    while true
      invariant 0 <= i <= |inputs|
      invariant whole == Session(taken + Taken(inputs, i).notes, Taken(inputs, i).error)
      invariant history == Records(taken, cwd)
      invariant written == if taken == [] then files else AppendTo(files, ReadmePath(cwd), Written(taken))
      decreases |inputs| - i
    {
      if i == |inputs| || inputs[i].Interrupt? {
        raised := Some(ReadError(inputs, i));
        TakenStops(inputs, i);
        assert taken + [] == taken;
        return;
      }
      var note := Strip(inputs[i].text);
      if IsExit(note) {
        raised := None;
        TakenStops(inputs, i);
        assert taken + [] == taken;
        return;
      }
      TakenContinues(inputs, i, taken);
      var saved := SaveNote(note, cwd, written);
      SavedOneMore(files, cwd, taken, note);
      written := saved.files;
      history := history + [saved.record];
      taken := taken + [note];
      i := i + 1;
    }
  }

  /** The event at `k` is a line the loop takes as a note. */
  predicate NoteLine(inputs: seq<Event>, k: nat) {
    k < |inputs| && inputs[k].Line? && !IsExit(Strip(inputs[k].text))
  }

  /** The events from `i` up to `j`, stripped, in order. */
  function Stripped(inputs: seq<Event>, i: nat, j: nat): (r: seq<string>)
    requires j <= |inputs|
    ensures |r| == if i <= j then j - i else 0
    decreases j - i
  {
    if i >= j then [] else [Strip(TextOf(inputs[i]))] + Stripped(inputs, i + 1, j)
  }

  lemma {:induction false} StrippedAt(inputs: seq<Event>, i: nat, j: nat, k: nat)
    requires i + k < j <= |inputs|
    ensures Stripped(inputs, i, j)[k] == Strip(TextOf(inputs[i + k]))
    decreases j - i
  {
    if k > 0 {
      StrippedAt(inputs, i + 1, j, k - 1);
    }
  }

  /** If the loop ends cleanly, the exit token was read: every event before
      it was a line, and the notes are those lines, stripped. */
  lemma {:induction false} CleanExitReadsToken(inputs: seq<Event>, i: nat)
    requires Taken(inputs, i).error == None
    ensures exists j :: i <= j < |inputs| && inputs[j].Line? && IsExit(Strip(inputs[j].text))
                      && (forall k :: i <= k < j ==> NoteLine(inputs, k))
                      && Taken(inputs, i).notes == Stripped(inputs, i, j)
    decreases |inputs| - i
  {
    if !IsExit(Strip(inputs[i].text)) {
      assert NoteLine(inputs, i);
      CleanExitReadsToken(inputs, i + 1);
      var j :| i + 1 <= j < |inputs| && inputs[j].Line? && IsExit(Strip(inputs[j].text))
              && (forall k :: i + 1 <= k < j ==> NoteLine(inputs, k))
              && Taken(inputs, i + 1).notes == Stripped(inputs, i + 1, j);
      assert Taken(inputs, i).notes == Stripped(inputs, i, j);
      assert forall k :: i <= k < j ==> NoteLine(inputs, k);
    } else {
      assert Taken(inputs, i).notes == Stripped(inputs, i, i);
    }
  }

  /** Conversely, when the first `j - i` events are lines that are not the
      exit token and the next is, the loop ends cleanly with exactly those
      lines, stripped, as notes. */
  lemma {:induction false} NotesUntilToken(inputs: seq<Event>, i: nat, j: nat)
    requires i <= j < |inputs| && inputs[j].Line? && IsExit(Strip(inputs[j].text))
    requires forall k :: i <= k < j ==> NoteLine(inputs, k)
    ensures Taken(inputs, i) == Session(Stripped(inputs, i, j), None)
    decreases j - i
  {
    if i < j {
      assert NoteLine(inputs, i);
      NotesUntilToken(inputs, i + 1, j);
    }
  }

  /** Any case of the token, with any surrounding whitespace, ends the loop
      without writing anything. */
  lemma ExitSpelling(inputs: seq<Event>, i: nat, pre: string, token: string, post: string)
    requires i < |inputs| && inputs[i] == Line(pre + token + post)
    requires AllSpace(pre) && AllSpace(post) && Lower(token) == ExitToken
    ensures Taken(inputs, i) == Session([], None)
  {
    LowerAt(token, 0);
    LowerAt(token, 2);
    assert LowerChar(token[0]) == '/' && LowerChar(token[2]) == 'q';
    StripPadded(pre, token, post);
  }
}
