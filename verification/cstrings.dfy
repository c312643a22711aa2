/**
 * Character buffers holding NUL-terminated strings, as `q_remove_head`
 * fills them. A stored string is a `string` with no NUL in it (the C
 * string up to, not including, its terminator); a caller's output buffer
 * is the sequence of its cells.
 */
module CStrings {

  datatype Option<T> = None | Some(value: T)

  const Nul: char := '\0'

  /** Bytes in `sizeof(int)` and `sizeof(size_t)` on an LP64 target. */
  const IntBytes: nat := 4
  const SizeBytes: nat := 8
  /** `size_t` arithmetic is modulo this value. */
  const SizeModulus: nat := 0x1_0000_0000_0000_0000

  /** A C string can hold every character except its own terminator. */
  predicate NoNul(s: string) {
    Nul !in s
  }

  function Min(a: int, b: int): (m: int)
    ensures m <= a && m <= b && (m == a || m == b)
  {
    if a <= b then a else b
  }

  /**
   * The string a C reader sees in `buf`: every cell before the first
   * terminator, or the whole buffer when it holds none.
   */
  function CString(buf: seq<char>): (r: string)
    ensures |r| <= |buf| && r == buf[..|r|]
    ensures NoNul(r)
    ensures |r| < |buf| ==> buf[|r|] == Nul
  {
    if buf == [] || buf[0] == Nul then [] else [buf[0]] + CString(buf[1..])
  }

  /** A string followed by its terminator reads back as itself, whatever follows. */
  lemma CStringOfTerminated(p: string, rest: seq<char>)
    requires NoNul(p)
    ensures CString(p + [Nul] + rest) == p
  {
    var buf := p + [Nul] + rest;
    assert buf[..|p|] == p;
    assert buf[|p|] == Nul;
  }

  /**
   * The buffer after the documented copy of `q_remove_head`: with a
   * capacity of `bufsize` cells, the first `bufsize - 1` characters of
   * `value` at most, then a terminator right after them; a capacity of 0
   * leaves the buffer as it was. Cells after the terminator keep their
   * old contents.
   */
  function CopyOut(buf: seq<char>, value: string, bufsize: nat): (r: seq<char>)
    requires bufsize <= |buf|
    ensures |r| == |buf|
    ensures r[bufsize..] == buf[bufsize..]
    ensures bufsize == 0 ==> r == buf
  {
    if bufsize == 0 then buf
    else
      var k := Min(|value|, bufsize - 1);
      value[..k] + [Nul] + buf[k + 1..]
  }

  /**
   * Writes the documented copy of `q_remove_head` into `sp`, whose
   * capacity is `bufsize` cells: the stored string truncated to
   * `bufsize - 1` characters, then a terminator; nothing when `bufsize` is 0.
   */
  method WriteOut(sp: array<char>, value: string, bufsize: nat)
    requires bufsize <= sp.Length
    modifies sp
    ensures sp[..] == CopyOut(old(sp[..]), value, bufsize)
  {
    if bufsize == 0 {
      return;
    }
    var k := Min(|value|, bufsize - 1);
    forall i | 0 <= i < k {
      sp[i] := value[i];
    }
    sp[k] := Nul;
    assert sp[..] == value[..k] + [Nul] + old(sp[..])[k + 1..];
  }

  /**
   * What the caller reads back from the buffer is the removed string,
   * truncated to `bufsize - 1` characters; a string that fits is read
   * back whole.
   */
  lemma CopyOutReadBack(buf: seq<char>, value: string, bufsize: nat)
    requires NoNul(value)
    requires 1 <= bufsize <= |buf|
    ensures CString(CopyOut(buf, value, bufsize)) == value[..Min(|value|, bufsize - 1)]
    ensures |value| < bufsize ==> CString(CopyOut(buf, value, bufsize)) == value
  {
    var k := Min(|value|, bufsize - 1);
    assert NoNul(value[..k]) by {
      forall i | 0 <= i < k ensures value[..k][i] != Nul {
        assert value[..k][i] == value[i];
      }
    }
    CStringOfTerminated(value[..k], buf[k + 1..]);
  }

  /**
   * The copy as queue.c:151-158 writes it, on an LP64 target. The count
   * compared is the string length against `bufsize - 1` computed in
   * `size_t` (so 0 wraps to its maximum); the bytes copied are
   * `sizeof(string_size)` or `sizeof(bufsize)` rather than that length;
   * the terminator goes to cell `bufsize - 1` whatever was copied. The
   * source bytes are the stored string and its terminator. `None` stands
   * for an access outside the string or outside the buffer, which C
   * leaves undefined.
   */
  function CopyAsWritten(buf: seq<char>, value: string, bufsize: nat): (r: Option<seq<char>>)
    requires |buf| == bufsize < SizeModulus
    ensures r.Some? ==> |r.value| == |buf|
    ensures bufsize == 0 ==> r == None
    ensures |value| + 1 < IntBytes ==> r == None
  {
    var limit := (bufsize - 1) % SizeModulus;
    var count := if |value| <= limit then IntBytes else SizeBytes;
    var src := value + [Nul];
    if count > |src| || count > |buf| || limit >= |buf| then None
    else Some((src[..count] + buf[count..])[limit := Nul])
  }

  /**
   * Inputs on which the copy as written differs from its documented
   * contract: "hello" into a 6-cell buffer reads back as "hell." instead
   * of "hello"; "hello" into a 3-cell buffer copies 8 bytes into 3 cells
   * where "he" was promised; "hi" into an 8-cell buffer reads 4 bytes
   * from a 3-byte string; any 0-cell buffer is written out of bounds.
   */
  lemma CopyAsWrittenCounterexamples()
    ensures CopyAsWritten("......", "hello", 6) == Some("hell.\0")
    ensures CString("hell.\0") == "hell." != "hello"
    ensures CString(CopyOut("......", "hello", 6)) == "hello"
    ensures CopyAsWritten("...", "hello", 3) == None
    ensures CString(CopyOut("...", "hello", 3)) == "he"
    ensures CopyAsWritten("........", "hi", 8) == None
    ensures CString(CopyOut("........", "hi", 8)) == "hi"
  {
    assert ("hello" + [Nul])[..IntBytes] + "......"[IntBytes..] == "hell..";
    assert "hell.."[5 := Nul] == "hell.\0";
    CopyOutReadBack("......", "hello", 6);
    CopyOutReadBack("...", "hello", 3);
    CopyOutReadBack("........", "hi", 8);
    CStringOfTerminated("hell.", []);
    assert "hell." != "hello" by { assert "hell."[4] != "hello"[4]; }
  }
}
