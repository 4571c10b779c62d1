/** Byte strings as the upload handler sees them. `strlen`, `trim` and a
    `preg_replace` pattern without the `u` modifier all work byte by byte, so
    every string of the model is a sequence of bytes. A byte is written as the
    character with the same code point, which keeps ASCII literals readable. */
module Bytes {

  type Byte = c: char | c as int < 256

  type Bytes = seq<Byte>

  const Dot: Byte := '.'

  const Slash: Byte := '/'

  /** The bytes the class `[A-Za-z0-9\-]` matches: the only bytes a stored
      file name's caption part may hold. */
  predicate IsSafe(b: Byte) {
    || ('A' <= b <= 'Z')
    || ('a' <= b <= 'z')
    || ('0' <= b <= '9')
    || b == '-'
  }

  /** The default character list of PHP `trim`: space, tab, line feed,
      carriage return, NUL and vertical tab. */
  predicate IsTrimSpace(b: Byte) {
    b == ' ' || b == '\t' || b == '\n' || b == '\r' || b == '\0' || b == '\U{000B}'
  }

  predicate AllSafe(s: Bytes) {
    forall k :: 0 <= k < |s| ==> IsSafe(s[k])
  }

  predicate NoDot(s: Bytes) {
    forall k :: 0 <= k < |s| ==> s[k] != Dot
  }
}

/** An optional value: an absent form field or file record, a missing index. */
module Options {

  datatype Option<+T> = None | Some(value: T)
}
