/** The engine's own log, converted and loaded again, is a tape that answers alike. */
module SelfReplay {
  import opened Bytes
  import opened LogFormat
  import opened Converter
  import opened Recording
  import opened Replay
  import opened EndToEnd
  import opened Reconversion
  import opened Engine
  import opened Session

  lemma HashComment(text: string)
    requires text != "" && text[0] == '#' && OneLine(text)
    ensures Printable(Comment(text))
  {
  }

  lemma TitlePlain()
    ensures Printable(Comment(TITLE))
  {
    OneLineAppend("# fremsoft activity log", " -- same format as cstech2win shim");
    HashComment(TITLE);
  }

  lemma RequestFormatPlain()
    ensures Printable(Comment(REQUEST_FORMAT))
  {
    OneLineAppend("# format: ms|tid|HEX|REQ-PDU|", "len=N|<chipsoft hdr><uds bytes>");
    HashComment(REQUEST_FORMAT);
  }

  lemma ResponseFormatPlain()
    ensures Printable(Comment(RESPONSE_FORMAT))
  {
    OneLineAppend("# format: ms|tid|HEX|RSP-UDS|", "len=N|<chipsoft hdr><uds bytes>");
    HashComment(RESPONSE_FORMAT);
  }

  lemma PreamblePrintable(path: string)
    requires OneLine(path)
    ensures forall l :: l in Preamble(path) ==> l.Comment? && Printable(l)
  {
    TitlePlain();
    RequestFormatPlain();
    ResponseFormatPlain();
    OneLineAppend("# log file: ", path);
    HashComment("# log file: " + path);
  }

  /** Serve any sequence of calls and convert the log the engine wrote. The new tape knows exactly what the session asked
      for, and repeats the answer to the first call that asked exactly when the log keeps it. */
  lemma EngineLogReconverts(tape: seq<Recorded>, calls: seq<Timed>, tid: nat -> nat, clock: (nat, nat) -> nat, path: string,
                            gap: int, meta: Metadata, canId: U32, uds: seq<Byte>)
    requires uds != [] && OneLine(path)
    ensures Reconverted(tape, LoggedSession(tape, calls, |calls|, tid, clock), gap,
                        ConvertedTape(LogAfter(tape, calls, |calls|, tid, clock, path), gap, meta), canId, uds)
  {
    PreamblePrintable(path);
    ReconversionIff(tape, Preamble(path), LoggedSession(tape, calls, |calls|, tid, clock), gap, meta, canId, uds);
  }
}
