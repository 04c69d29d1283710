/**
 The relay's wire constants. Every `char` of the model stands for one byte:
 the relay works on byte slices and its constants are ASCII.
 */
module Protocol {
  /** Byte that ends an incoming line. */
  const MsgDelimiter: char := '\n'
  /** Terminator of every outgoing line; its bytes are also the cutset
      stripped from the end of every incoming line. */
  const OutputLineTerm: string := "\r\n"
  /** First byte of a command line. */
  const CmdSpecifier: char := '/'
  /** Separator between a sender's nickname and the broadcast payload. */
  const NickMsgDelimiter: string := ": "
  /** Shortest nickname a client may choose, in bytes. */
  const MinNickLen: nat := 4
}
