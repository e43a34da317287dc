/** What the interactive loops read, and the Python exceptions that can end them. */
module Console {

  /** The outcome of one call to `input()`: a line, or Ctrl-C
      (`KeyboardInterrupt`). A loop that has used up its events has reached
      end of input, where `input()` raises `EOFError`. */
  datatype Event = Line(text: string) | Interrupt

  /** The text of a line event (empty for Ctrl-C). */
  function TextOf(e: Event): string {
    if e.Line? then e.text else ""
  }

  datatype Option<T> = None | Some(value: T)

  datatype PyError = EOFError | KeyboardInterrupt | IndexError

  /** A Python call either returns a value or raises. */
  datatype Outcome<T> = Returned(value: T) | Raised(error: PyError)

  /** The exception `input()` raises at position `i` of `inputs`, when it
      does not return a line there. */
  function ReadError(inputs: seq<Event>, i: nat): PyError
    requires i >= |inputs| || inputs[i].Interrupt?
  {
    if i >= |inputs| then EOFError else KeyboardInterrupt
  }
}

/** The external command-history store, seen only through what is written to
    it and what is read back. */
module History {

  /** One call `command_history.add(input, tags, output, directory)`. */
  datatype Record = Record(input: string, tags: seq<string>, output: string, directory: string)

  /** A row returned by `command_history.get_all`; only the command (position
      2) and output (position 4) columns are read by the modes. */
  datatype Row = Row(command: string, output: string)
}
