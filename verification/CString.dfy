/** NUL-terminated byte buffers. */
module CString {

  const NUL: char := '\0'

  /** The text of a NUL-terminated buffer of length n. */
  ghost predicate Holds(buf: array<char>, n: nat, s: string)
    reads buf
  {
    n == |s| && n < buf.Length && buf[..n] == s && buf[n] == NUL && NUL !in s
  }

  lemma BufferAt(buf: array<char>, s: string)
    requires Holds(buf, |s|, s)
    ensures forall i :: 0 <= i < |s| ==> buf[i] == s[i] && buf[i] != NUL
  {
    assert forall i :: 0 <= i < |s| ==> buf[..|s|][i] == s[i] && s[i] in s;
  }

  /** The index of the first NUL: the length of the text. */
  method Strlen(s: array<char>, ghost text: string) returns (n: nat)
    requires Holds(s, |text|, text)
    ensures n == |text|
  {
    n := 0;
    while s[n] != NUL
      invariant n <= |text|
      decreases |text| - n
    {
      n := n + 1;
    }
    BufferAt(s, text);
  }
}
