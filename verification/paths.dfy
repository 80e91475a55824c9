/** The two POSIX path helpers the sound list uses: `os.path.join` with two
    components and `os.path.splitext`, plus `os.path.basename`, which
    recovers a file name from a joined path. Only `/` is a separator; there
    is no alternative separator and no drive letter. */
module Paths {
  import opened Strings

  const Sep: char := '/'
  const ExtSep: char := '.'

  /** Index of the last occurrence of `c` in `s`, or -1 (Python's
      `str.rfind`). */
  function LastIndexOf(s: string, c: char): (r: int)
    ensures -1 <= r < |s|
    ensures r >= 0 ==> s[r] == c
    ensures forall k :: r < k < |s| ==> s[k] != c
  {
    if |s| == 0 then -1
    else if s[|s| - 1] == c then |s| - 1
    else LastIndexOf(s[..|s| - 1], c)
  }

  predicate AllDots(s: string)
  {
    forall k :: 0 <= k < |s| ==> s[k] == ExtSep
  }

  /** The last path component: everything after the last separator. */
  function Basename(p: string): (r: string)
    ensures Sep !in r
    ensures Sep !in p ==> r == p
  {
    p[LastIndexOf(p, Sep) + 1..]
  }

  /** The scan that skips the leading dots of a file name: true when some
      position in `p[i..dot]` holds a character other than a dot. */
  function HasNonDot(p: string, i: int, dot: int): (r: bool)
    requires 0 <= i <= dot <= |p|
    ensures r <==> !AllDots(p[i..dot])
    decreases dot - i
  {
    if i == dot then false
    else if p[i] != ExtSep then true
    else
      assert forall k :: 0 < k < dot - i ==> p[i..dot][k] == p[i + 1..dot][k - 1];
      HasNonDot(p, i + 1, dot)
  }

  /** `os.path.splitext(p)` as a pair (root, ext). The extension starts at
      the last dot, provided that dot is in the last path component and is
      not one of that component's leading dots; otherwise it is empty. */
  function SplitExt(p: string): (r: (string, string))
    ensures r.0 + r.1 == p
    ensures r.1 == [] || ExtensionShape(r.1)
    ensures r.1 != [] ==> !AllDots(Basename(r.0))
    ensures r.1 == [] ==> OnlyLeadingDots(Basename(p))
  {
    var sepIndex := LastIndexOf(p, Sep);
    var dotIndex := LastIndexOf(p, ExtSep);
    if dotIndex > sepIndex && HasNonDot(p, sepIndex + 1, dotIndex) then
      SplitAtLastDot(p, sepIndex, dotIndex);
      (p[..dotIndex], p[dotIndex..])
    else
      NoExtension(p, sepIndex, dotIndex);
      (p, [])
  }

  /** When `splitext` splits, the part after the last dot is an extension and
      the root's last component has a character other than a dot. */
  lemma SplitAtLastDot(p: string, sepIndex: int, dotIndex: int)
    requires sepIndex == LastIndexOf(p, Sep) && dotIndex == LastIndexOf(p, ExtSep)
    requires sepIndex < dotIndex && !AllDots(p[sepIndex + 1..dotIndex])
    ensures p[..dotIndex] + p[dotIndex..] == p
    ensures ExtensionShape(p[dotIndex..])
    ensures !AllDots(Basename(p[..dotIndex]))
  {
    LastIndexOfPrefix(p, Sep, dotIndex);
    assert Basename(p[..dotIndex]) == p[sepIndex + 1..dotIndex];
  }

  /** When `splitext` does not split, every dot of the last component is a
      leading dot. */
  lemma NoExtension(p: string, sepIndex: int, dotIndex: int)
    requires sepIndex == LastIndexOf(p, Sep) && dotIndex == LastIndexOf(p, ExtSep)
    requires !(sepIndex < dotIndex && !AllDots(p[sepIndex + 1..dotIndex]))
    ensures OnlyLeadingDots(Basename(p))
  {
    var b := Basename(p);
    assert b == p[sepIndex + 1..];
    forall j, k | 0 <= j < k < |b| && b[k] == ExtSep
      ensures b[j] == ExtSep
    {
      assert p[sepIndex + 1 + k] == ExtSep;
      assert p[sepIndex + 1..dotIndex][j] == p[sepIndex + 1 + j];
    }
  }

  /** A non-empty extension: a dot followed by characters that are neither a
      dot nor a separator. */
  predicate ExtensionShape(ext: string)
  {
    |ext| > 0 && ext[0] == ExtSep && forall k :: 0 < k < |ext| ==> ext[k] != ExtSep && ext[k] != Sep
  }

  /** Every dot of the name is among its leading dots, so the name has no
      extension (`.bashrc`, `..mp3`, `README`). */
  predicate OnlyLeadingDots(name: string)
  {
    forall j, k :: 0 <= j < k < |name| && name[k] == ExtSep ==> name[j] == ExtSep
  }

  lemma LastIndexOfPrefix(p: string, c: char, n: nat)
    requires n <= |p|
    requires LastIndexOf(p, c) < n
    ensures LastIndexOf(p[..n], c) == LastIndexOf(p, c)
  {
  }

  /** The split the contract of `SplitExt` describes is the only one: any
      root and non-empty extension with that shape are what `SplitExt`
      returns. */
  lemma {:induction false} SplitExtUnique(p: string, root: string, ext: string)
    requires root + ext == p
    requires ExtensionShape(ext)
    requires !AllDots(Basename(root))
    ensures SplitExt(p) == (root, ext)
  {
    var d := |root|;
    assert p[d] == ExtSep;
    assert LastIndexOf(p, ExtSep) == d;
    assert LastIndexOf(p, Sep) < d;
    LastIndexOfPrefix(p, Sep, d);
    assert p[..d] == root;
    assert p[d..] == ext;
  }

  /** `os.path.join(a, b)` for two components: an absolute `b` replaces `a`;
      a separator is inserted only when `a` is non-empty and does not already
      end with one. */
  function Join(a: string, b: string): (r: string)
    ensures EndsWith(r, b)
    ensures |b| > 0 && b[0] == Sep ==> r == b
    ensures (|b| == 0 || b[0] != Sep) && |a| > 0 && a[|a| - 1] != Sep ==> r == a + [Sep] + b
  {
    if |b| > 0 && b[0] == Sep then b
    else if |a| == 0 || a[|a| - 1] == Sep then a + b
    else a + [Sep] + b
  }

  /** A file name without separators is recovered from the joined path by
      `Basename`, whatever the directory is. */
  lemma {:induction false} BasenameOfJoin(dir: string, name: string)
    requires Sep !in name
    ensures Basename(Join(dir, name)) == name
  {
    var p := Join(dir, name);
    var n := |p| - |name|;
    assert p[n..] == name;
    var i := LastIndexOf(p, Sep);
    if n > 0 {
      assert p[n - 1] == Sep || |name| == 0 || dir == [] by {
        if |name| > 0 {
          assert p == dir + name || p == dir + [Sep] + name;
        }
      }
    }
    if |name| > 0 && n > 0 {
      assert i == n - 1;
    }
  }
}
