/** Bytes and C strings. A byte is modelled as a `char`; nothing here depends on its range. */
module Bytes {

  const NUL: char := '\0'
  const NEWLINE: char := '\n'
  const SPACE: char := ' '

  /** The size of the kernel's line and argument buffers. */
  const BUFSIZE := 128

  /** The C string held in a buffer: the bytes before the first NUL, or all of them if there is none. */
  function CString(buf: seq<char>): (s: seq<char>)
    ensures NUL !in s && s <= buf
    ensures |s| < |buf| ==> buf[|s|] == NUL
  {
    if buf == [] || buf[0] == NUL then [] else [buf[0]] + CString(buf[1..])
  }

  /** A buffer after `bytes` are stored in it at `start`. */
  function Splice(before: seq<char>, start: nat, bytes: seq<char>): (after: seq<char>)
    requires start + |bytes| <= |before|
    ensures |after| == |before|
    ensures forall k :: 0 <= k < |before| ==>
              after[k] == if start <= k < start + |bytes| then bytes[k - start] else before[k]
  {
    before[..start] + bytes + before[start + |bytes|..]
  }

  /** Words end at a space or a newline. */
  predicate Separates(c: char) {
    c == SPACE || c == NEWLINE
  }

  /** The characters before the first space or newline. */
  function WordOf(s: seq<char>): (w: seq<char>)
    ensures w <= s && (|w| < |s| ==> Separates(s[|w|]))
    ensures forall k :: 0 <= k < |w| ==> !Separates(w[k])
  {
    if s == [] || Separates(s[0]) then [] else [s[0]] + WordOf(s[1..])
  }

  function Min(a: int, b: int): int {
    if a <= b then a else b
  }
}
