/**
 * C strings as the queue stores them, the case-insensitive comparison the
 * sort uses (strcasecmp), and the bounded copy into a caller's buffer that
 * q_remove_head performs.
 *
 * A `char` here stands for one byte of a C string; a C string never holds
 * the NUL byte, which only terminates it.
 */
module CStrings {

  /** A NUL-free character sequence: the characters before the terminator. */
  type CString = s: string | '\0' !in s

  /** ASCII case folding, as tolower does in the C locale. */
  function Fold(c: char): (f: char)
    ensures !('A' <= f <= 'Z')
    ensures 'A' <= c <= 'Z' ==> f as int - 'a' as int == c as int - 'A' as int
    ensures 'a' <= f <= 'z' <==> 'a' <= c <= 'z' || 'A' <= c <= 'Z'
    ensures !('a' <= f <= 'z') ==> f == c
    ensures 'a' <= c <= 'z' ==> f == c
    ensures f == '\0' <==> c == '\0'
  {
    if 'A' <= c <= 'Z' then (c as int + 32) as char else c
  }

  /** The folded byte at position 0, or 0 for the terminator of an empty string. */
  function FirstFolded(s: CString): (b: int)
    ensures b == 0 <==> s == []
  {
    if s == [] then 0 else Fold(s[0]) as int
  }

  /**
   * strcasecmp: the difference of the first pair of folded bytes that
   * differ, reading the terminator as byte 0; zero when none differ.
   */
  function StrCaseCmp(a: CString, b: CString): int
    decreases |a|
  {
    var ca, cb := FirstFolded(a), FirstFolded(b);
    if ca != cb || a == [] then ca - cb else StrCaseCmp(a[1..], b[1..])
  }

  /** The whole string folded to lower case. */
  function FoldAll(s: string): (f: string)
    ensures |f| == |s|
    ensures forall i :: 0 <= i < |s| ==> f[i] == Fold(s[i])
  {
    if s == [] then [] else [Fold(s[0])] + FoldAll(s[1..])
  }

  /** Swapping the arguments of strcasecmp negates its result. */
  lemma {:induction false} StrCaseCmpAntisymmetric(a: CString, b: CString)
    ensures StrCaseCmp(a, b) == -StrCaseCmp(b, a)
    decreases |a|
  {
    if FirstFolded(a) == FirstFolded(b) && a != [] {
      StrCaseCmpAntisymmetric(a[1..], b[1..]);
    }
  }

  /** "Not greater" under strcasecmp is transitive, so it is a total preorder. */
  lemma {:induction false} StrCaseCmpTransitive(a: CString, b: CString, c: CString)
    requires StrCaseCmp(a, b) <= 0 && StrCaseCmp(b, c) <= 0
    ensures StrCaseCmp(a, c) <= 0
    decreases |a|
  {
    var fa, fb, fc := FirstFolded(a), FirstFolded(b), FirstFolded(c);
    if fa == fb && fb == fc && a != [] {
      StrCaseCmpTransitive(a[1..], b[1..], c[1..]);
    }
  }

  /** strcasecmp reports equality exactly when the two strings agree up to ASCII case. */
  lemma {:induction false} StrCaseCmpZeroIffFoldedEqual(a: CString, b: CString)
    ensures StrCaseCmp(a, b) == 0 <==> FoldAll(a) == FoldAll(b)
    decreases |a|
  {
    if a != [] && b != [] {
      StrCaseCmpZeroIffFoldedEqual(a[1..], b[1..]);
      assert FoldAll(a) == [Fold(a[0])] + FoldAll(a[1..]);
      assert FoldAll(b) == [Fold(b[0])] + FoldAll(b[1..]);
      if FoldAll(a) == FoldAll(b) {
        assert FoldAll(a)[0] == FoldAll(b)[0];
        assert FoldAll(a[1..]) == FoldAll(a)[1..];
      }
    }
  }

  /** The ordering is not byte-wise: "B" sorts after "a" although 'B' < 'a' as bytes. */
  lemma CaseInsensitiveNotBytewise()
    ensures 'B' < 'a'
    ensures StrCaseCmp("B", "a") > 0
  {
  }

  /**
   * The bytes q_remove_head leaves in sp[0 .. bufsize) (for bufsize >= 1):
   * read back as a C string they are the removed string cut to bufsize-1
   * bytes, and the buffer is NUL-terminated whatever the string's length.
   */
  function CopyOut(v: CString, bufsize: nat): (buf: string)
    requires bufsize >= 1
    ensures |buf| == bufsize && buf[bufsize - 1] == '\0'
    ensures BufferString(buf) == v[..if |v| < bufsize - 1 then |v| else bufsize - 1]
  {
    var buf := seq(bufsize, i requires 0 <= i < bufsize =>
      if i < |v| && i < bufsize - 1 then v[i] else '\0');
    var m := if |v| < bufsize - 1 then |v| else bufsize - 1;
    BufferStringOfPrefix(buf, m);
    assert buf[..m] == v[..m];
    buf
  }

  /** The C string a buffer holds: its bytes before the first NUL. */
  function BufferString(buf: string): (s: CString)
    ensures |s| <= |buf| && s == buf[..|s|]
    ensures |s| < |buf| ==> buf[|s|] == '\0'
  {
    if buf == [] || buf[0] == '\0' then [] else [buf[0]] + BufferString(buf[1..])
  }

  /** A buffer whose first m bytes are not NUL and whose byte m is NUL holds those m bytes. */
  lemma {:induction false} BufferStringOfPrefix(buf: string, m: nat)
    requires m < |buf| && buf[m] == '\0'
    requires forall i :: 0 <= i < m ==> buf[i] != '\0'
    ensures BufferString(buf) == buf[..m]
  {
    if m > 0 {
      BufferStringOfPrefix(buf[1..], m - 1);
      assert buf[..m] == [buf[0]] + buf[1..][..m - 1];
    }
  }

  /**
   * The copy as written: memcpy(sp, value, bufsize) reads bufsize bytes from
   * the string's allocation, which holds strlen(value)+1 bytes, and then the
   * last byte is set to NUL. None stands for a read past the allocation.
   */
  function MemcpyAsWritten(v: CString, bufsize: nat): (r: Option<string>)
    requires bufsize >= 1
    ensures r.Some? <==> bufsize <= |v| + 1
    ensures r.Some? ==> r.value == CopyOut(v, bufsize)
  {
    var allocation := v + ['\0'];
    if bufsize > |allocation| then None
    else
      var w := allocation[..bufsize - 1] + ['\0'];
      assert forall i :: 0 <= i < bufsize ==> w[i] == CopyOut(v, bufsize)[i];
      Some(w)
  }

  /** A one-byte string removed into a 1024-byte buffer makes the copy read past its allocation. */
  lemma MemcpyOverreadWitness()
    ensures MemcpyAsWritten("a", 1024).None?
  {
  }

  datatype Option<T> = None | Some(value: T)
}
