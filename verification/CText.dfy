/**
 C character memory.  A C string pointer is modelled by the `string` holding the
 memory from that pointer on; reading past the modelled extent yields NUL.
 */
module CText {

  /** The character `p[i]` of the memory `mem` that `p` points at. */
  function At(mem: string, i: nat): char {
    if i < |mem| then mem[i] else '\0'
  }

  ghost predicate NulFree(s: string) {
    forall i | 0 <= i < |s| :: s[i] != '\0'
  }

  ghost predicate Free(s: string, c: char) {
    forall i | 0 <= i < |s| :: s[i] != c
  }

  /** The C string at the start of `mem`: everything before the first NUL. */
  function CStr(mem: string): (s: string)
    ensures |s| <= |mem|
  {
    if mem == "" || mem[0] == '\0' then ""
    else [mem[0]] + CStr(mem[1..])
  }

  lemma {:induction false} CStrIs(mem: string)
    ensures NulFree(CStr(mem)) && CStr(mem) == mem[..|CStr(mem)|]
    ensures At(mem, |CStr(mem)|) == '\0'
  {
    if mem != "" && mem[0] != '\0' {
      CStrIs(mem[1..]);
    }
  }

  /** A NUL-free text followed by a NUL (or by the end of memory) is read back whole. */
  lemma {:induction false} CStrOfText(s: string, junk: string)
    requires NulFree(s)
    requires junk == "" || junk[0] == '\0'
    ensures CStr(s + junk) == s
  {
    if s == "" {
      assert s + junk == junk;
    } else {
      assert (s + junk)[1..] == s[1..] + junk;
      CStrOfText(s[1..], junk);
    }
  }

  /** The memory behind the pointer `p + k`. */
  function From(mem: string, k: nat): string {
    if k <= |mem| then mem[k..] else ""
  }

  lemma FromAt(mem: string, k: nat)
    ensures forall i: nat :: At(From(mem, k), i) == At(mem, k + i)
  {
  }

  /** The C string that results from copying `k` characters and a terminating NUL. */
  function Copied(mem: string, k: nat): (s: string)
    ensures |s| <= k
  {
    CStr(if k <= |mem| then mem[..k] else mem)
  }

  /** Copying a text, with `pad` of the NULs behind it. */
  lemma CopiedText(s: string, after: string, pad: nat)
    requires NulFree(s) && (pad == 0 || At(after, 0) == '\0')
    ensures Copied(s + after, |s| + pad) == s
  {
    var k := |s| + pad;
    var mem := s + after;
    var part := if k <= |mem| then mem[..k] else mem;
    assert part == s + part[|s|..];
    CStrOfText(s, part[|s|..]);
  }

  /** A bounded copy into a buffer that has room for `n` characters besides the NUL. */
  function Clip(s: string, n: nat): (t: string)
    ensures t <= s && |t| <= n
    ensures |s| <= n ==> t == s
  {
    if |s| <= n then s else s[..n]
  }
}
