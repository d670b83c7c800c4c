/** The records of the payload, one JSON object per line. */
module Records {
  /** A context file read in full (`"type": "context_file"`), or the symbols
      ctags found in one source file. */
  datatype Record =
    | ContextRecord(path: string, content: string)
    | SymbolRecord(path: string, tags: seq<string>)
}
