/**
 * Bytes and terminators shared by the IRC line framer and the grammar parser.
 *
 * A byte is represented by the character with the same code (0 to 255), so that
 * a Rust byte string such as b"PING\r\n" is written "PING\r\n" here.
 */
module Wire {

  type byte = c: char | c as int < 256 witness '\0'

  const CR: byte := '\r'
  const LF: byte := '\n'

  /** The two-byte line terminator. */
  const CRLF: seq<byte> := [CR, LF]

  datatype Option<+T> = None | Some(value: T)

  /** A CR LF pair starts at index `i` of `s`. */
  predicate IsCrlfAt(s: seq<byte>, i: int)
  {
    0 <= i && i + 1 < |s| && s[i] == CR && s[i + 1] == LF
  }

  predicate HasCrlf(s: seq<byte>)
  {
    exists i | 0 <= i < |s| :: IsCrlfAt(s, i)
  }

  /** Joining byte strings is associative; called where a proof needs the regrouped form. */
  lemma Assoc(a: seq<byte>, b: seq<byte>, c: seq<byte>)
    ensures a + b + c == a + (b + c)
  {
  }
}
