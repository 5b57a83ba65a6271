/** Zero-terminated strings and the C library calls on them. */
module CStrings {
  import opened Bytes

  /** A C string's characters. */
  ghost predicate IsText(s: seq<byte>) { 0 !in s }

  /** The C string at the start of a buffer. */
  ghost function CStr(s: seq<byte>): (name: seq<byte>)
    ensures name <= s && IsText(name)
    ensures 0 in s ==> |name| < |s| && s[|name|] == 0
  {
    if s == [] || s[0] == 0 then [] else [s[0]] + CStr(s[1..])
  }

  /** strcmp(buf, id) == 0, for an id shorter than the buffer. */
  predicate StrEqual(buf: seq<byte>, id: seq<byte>) {
    |id| < |buf| && buf[..|id|] == id && buf[|id|] == 0
  }

  /** memcmp(buf, id, |id|) == 0. */
  predicate MemEqual(buf: seq<byte>, id: seq<byte>) {
    |id| <= |buf| && buf[..|id|] == id
  }

  /** strcpy(buf, id): the bytes after the terminating zero stay. */
  function StrCpy(buf: seq<byte>, id: seq<byte>): (r: seq<byte>)
    requires |id| < |buf|
    ensures |r| == |buf|
  {
    id + [0] + buf[|id| + 1..]
  }

  lemma {:induction false} CStrIs(s: seq<byte>, id: seq<byte>)
    requires IsText(id) && 0 in s
    ensures StrEqual(s, id) <==> CStr(s) == id
    ensures MemEqual(s, id) <==> id <= CStr(s)
  {
    if id != [] && s[0] == id[0] {
      CStrIs(s[1..], id[1..]);
      assert s == [s[0]] + s[1..] && id == [id[0]] + id[1..];
      assert CStr(s) == [s[0]] + CStr(s[1..]);
      assert StrEqual(s, id) <==> StrEqual(s[1..], id[1..]);
      assert MemEqual(s, id) <==> MemEqual(s[1..], id[1..]);
    }
  }

  lemma CStrOfCopy(buf: seq<byte>, id: seq<byte>)
    requires IsText(id) && |id| < |buf|
    ensures 0 in StrCpy(buf, id) && CStr(StrCpy(buf, id)) == id
  {
    var s := StrCpy(buf, id);
    assert s[|id|] == 0 && s[..|id|] == id;
    CStrIs(s, id);
  }

  /** The first place of a character, or the length of the text. */
  ghost function FirstIndex(s: seq<byte>, c: byte): (k: nat)
    ensures k <= |s| && c !in s[..k] && (k < |s| ==> s[k] == c)
  {
    if s == [] || s[0] == c then 0
    else
      FirstLater(s, c, FirstIndex(s[1..], c));
      1 + FirstIndex(s[1..], c)
  }

  lemma FirstLater(s: seq<byte>, c: byte, k: nat)
    requires s != [] && s[0] != c && k <= |s| - 1 && c !in s[1..][..k]
    ensures c !in s[..1 + k]
  {
    assert s[..1 + k] == [s[0]] + s[1..][..k];
  }

  lemma FirstIndexIs(s: seq<byte>, c: byte, k: nat)
    requires k <= |s| && c !in s[..k] && (k < |s| ==> s[k] == c)
    ensures FirstIndex(s, c) == k
  {
  }

  /** The terminating zero is the first zero. */
  lemma CStrChar(s: seq<byte>, n: nat)
    requires 0 in s && n <= |CStr(s)|
    ensures n < |s| && (s[n] == 0 <==> n == |CStr(s)|) && (n < |CStr(s)| ==> s[n] == CStr(s)[n])
  {
  }

  /** strlen. */
  method StrLen(a: array<byte>, at: nat) returns (n: nat)
    requires at <= a.Length && 0 in a[at..]
    ensures n == |CStr(a[at..])|
  {
    hide CStr;
    ghost var s := a[at..];
    n := 0;
    CStrChar(s, 0);
    while a[at + n] != 0
      invariant n <= |CStr(s)| && n < |s|
      decreases |s| - n
    {
      CStrChar(s, n);
      n := n + 1;
      CStrChar(s, n);
    }
    CStrChar(s, n);
  }

  /** strchr, for a character other than zero: its place, or nothing. */
  method StrChr(a: array<byte>, at: nat, c: byte) returns (found: Option<nat>)
    requires at <= a.Length && 0 in a[at..] && c != 0
    ensures var s := CStr(a[at..]);
            found == if FirstIndex(s, c) < |s| then Some(at + FirstIndex(s, c)) else None
  {
    hide CStr, FirstIndex;
    ghost var whole := a[at..];
    ghost var s := CStr(whole);
    var n := 0;
    CStrChar(whole, 0);
    while a[at + n] != 0
      invariant n <= |s| && n < |whole| && c !in s[..n]
      decreases |whole| - n
    {
      CStrChar(whole, n);
      if a[at + n] == c {
        FirstIndexIs(s, c, n);
        return Some(at + n);
      }
      assert s[..n + 1] == s[..n] + [s[n]];
      n := n + 1;
      CStrChar(whole, n);
    }
    CStrChar(whole, n);
    assert s[..n] == s;
    FirstIndexIs(s, c, n);
    found := None;
  }
}
