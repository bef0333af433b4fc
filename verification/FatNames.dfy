/** Short 8.3 names: `fat_name_to_string` and the C strings it is compared as. */
module FatNames {
  import opened Bytes
  import opened FatFormat

  const SPACE: Byte := 32
  const DOT: Byte := 46
  const BASE: nat := 8
  const NAME: nat := 11

  type ShortName = s: seq<Byte> | |s| == NAME witness seq(NAME, _ => 32)

  function Lower(c: Byte): Byte {
    if 65 <= c <= 90 then c + 32 else c
  }

  /** The characters of `s` that are not spaces, in lower case. */
  function Compact(s: seq<Byte>): (r: seq<Byte>)
    ensures |r| <= |s|
  {
    if s == [] then [] else (if s[0] == SPACE then [] else [Lower(s[0])]) + Compact(s[1..])
  }

  function Render(name: ShortName): (r: seq<Byte>)
    ensures |r| <= NAME + 1
  {
    var ext := Compact(name[BASE..]);
    Compact(name[..BASE]) + if ext == [] then [] else [DOT] + ext
  }

  /** What a C string reads as: the bytes before the first NUL. */
  function CString(s: seq<Byte>): (r: seq<Byte>)
    ensures |r| <= |s| && r == s[..|r|] && 0 !in r
    ensures |r| < |s| ==> s[|r|] == 0
  {
    if s == [] || s[0] == 0 then [] else [s[0]] + CString(s[1..])
  }

  lemma {:induction false} CompactAppend(s: seq<Byte>, c: Byte)
    ensures Compact(s + [c]) == Compact(s) + if c == SPACE then [] else [Lower(c)]
  {
    if s != [] {
      CompactAppend(s[1..], c);
      assert (s + [c])[1..] == s[1..] + [c];
    } else {
      assert s + [c] == [c];
    }
  }

  /** Copy the characters that are not spaces to `out` from `at` on. */
  method CopyCompact(name: seq<Byte>, out: array<Byte>, at: nat) returns (end: nat)
    requires at + |name| <= out.Length
    modifies out
    ensures end == at + |Compact(name)|
    ensures out[..at] == old(out[..at]) && out[at..end] == Compact(name)
  {
    end := at;
    for i := 0 to |name|
      invariant at <= end <= at + i && out[..at] == old(out[..at]) && out[at..end] == Compact(name[..i])
    {
      CompactAppend(name[..i], name[i]);
      assert name[..i + 1] == name[..i] + [name[i]];
      if name[i] != SPACE {
        var c := name[i];
        if 65 <= c <= 90 {
          c := c + 32;
        }
        out[end] := c;
        end := end + 1;
      }
    }
    assert name[..|name|] == name;
  }

  /** Put the dot and the extension behind the base name. */
  method AppendExtension(ext: array<Byte>, extLen: nat, out: array<Byte>, at: nat) returns (end: nat)
    requires extLen <= ext.Length && at + 1 + extLen <= out.Length && ext != out
    modifies out
    ensures end == at + 1 + extLen && out[..end] == old(out[..at]) + [DOT] + ext[..extLen]
  {
    out[at] := DOT;
    end := at + 1;
    for i := 0 to extLen
      invariant end == at + 1 + i && out[..end] == old(out[..at]) + [DOT] + ext[..i]
    {
      out[end] := ext[i];
      end := end + 1;
    }
  }

  /** `fat_name_to_string` */
  method FatNameToString(name: ShortName, out: array<Byte>)
    requires out.Length >= NAME + 2
    modifies out
    ensures out[..|Render(name)|] == Render(name) && out[|Render(name)|] == 0
  {
    var nameLen := CopyCompact(name[..BASE], out, 0);
    var ext := new Byte[4];
    var extLen := CopyCompact(name[BASE..], ext, 0);
    if extLen > 0 {
      assert ext[..extLen] == Compact(name[BASE..]);
      nameLen := AppendExtension(ext, extLen, out, nameLen);
    }
    assert out[..nameLen] == Render(name);
    out[nameLen] := 0;
  }

  /** What is compared and stored is the written text up to its NUL. */
  lemma {:induction false} CStringPrefix(s: seq<Byte>, t: seq<Byte>)
    requires |s| < |t| && s == t[..|s|] && t[|s|] == 0
    ensures CString(t) == CString(s)
  {
    if s != [] && s[0] != 0 {
      CStringPrefix(s[1..], t[1..]);
    }
  }

  // ---- legal names -----------------------------------------------------------

  /** A part of a legal name: characters other than NUL, space, dot and lower-case
      letters, padded with spaces at the end. */
  ghost predicate Padded(s: seq<Byte>, len: nat) {
    && len <= |s|
    && (forall i | 0 <= i < len :: s[i] != 0 && s[i] != SPACE && s[i] != DOT && !(97 <= s[i] <= 122))
    && (forall i | len <= i < |s| :: s[i] == SPACE)
  }

  ghost predicate Legal(name: ShortName) {
    exists b, e :: Padded(name[..BASE], b) && Padded(name[BASE..], e)
  }

  lemma {:induction false} CompactPadded(s: seq<Byte>, len: nat)
    requires Padded(s, len)
    ensures |Compact(s)| == len && forall i | 0 <= i < len :: Compact(s)[i] == Lower(s[i])
    ensures DOT !in Compact(s) && 0 !in Compact(s)
  {
    if len > 0 {
      CompactPadded(s[1..], len - 1);
    } else if s != [] {
      CompactPadded(s[1..], 0);
    }
  }

  lemma PaddedUnique(s: seq<Byte>, t: seq<Byte>, m: nat, n: nat)
    requires |s| == |t| && Padded(s, m) && Padded(t, n) && Compact(s) == Compact(t)
    ensures s == t
  {
    CompactPadded(s, m);
    CompactPadded(t, n);
    forall i | 0 <= i < |s| ensures s[i] == t[i] {
      if i < m {
        assert Lower(s[i]) == Lower(t[i]);
      }
    }
  }

  function BeforeDot(s: seq<Byte>): seq<Byte> {
    if s == [] || s[0] == DOT then [] else [s[0]] + BeforeDot(s[1..])
  }

  /** The first dot splits a rendered name. */
  lemma {:induction false} SplitAtDot(a: seq<Byte>, x: seq<Byte>)
    requires DOT !in a && (x == [] || x[0] == DOT)
    ensures BeforeDot(a + x) == a && (a + x)[|a|..] == x
  {
    if a != [] {
      SplitAtDot(a[1..], x);
      assert (a + x)[1..] == a[1..] + x;
    } else {
      assert a + x == x;
    }
  }

  /** The rendered name gives back the two parts it was made of. */
  lemma RenderParts(m: ShortName, b: nat, e: nat)
    requires Padded(m[..BASE], b) && Padded(m[BASE..], e)
    ensures BeforeDot(Render(m)) == Compact(m[..BASE])
    ensures Compact(m[BASE..]) == if |Render(m)| > b then Render(m)[b + 1..] else []
  {
    var base, ext := Compact(m[..BASE]), Compact(m[BASE..]);
    CompactPadded(m[..BASE], b);
    SplitAtDot(base, if ext == [] then [] else [DOT] + ext);
    if ext != [] {
      assert Render(m) == (base + [DOT]) + ext;
    }
  }

  lemma SameBase(m: ShortName, n: ShortName, b: nat, e: nat, c: nat, f: nat)
    requires Padded(m[..BASE], b) && Padded(m[BASE..], e) && Padded(n[..BASE], c) && Padded(n[BASE..], f)
    requires Render(m) == Render(n)
    ensures m[..BASE] == n[..BASE] && b == c
  {
    RenderParts(m, b, e);
    RenderParts(n, c, f);
    CompactPadded(m[..BASE], b);
    CompactPadded(n[..BASE], c);
    PaddedUnique(m[..BASE], n[..BASE], b, c);
  }

  lemma SameExtension(m: ShortName, n: ShortName, b: nat, e: nat, f: nat)
    requires Padded(m[..BASE], b) && Padded(m[BASE..], e) && Padded(n[..BASE], b) && Padded(n[BASE..], f)
    requires Render(m) == Render(n)
    ensures m[BASE..] == n[BASE..]
  {
    RenderParts(m, b, e);
    RenderParts(n, b, f);
    PaddedUnique(m[BASE..], n[BASE..], e, f);
  }

  /** No two legal names are rendered alike. */
  lemma LegalInjective(m: ShortName, n: ShortName)
    requires Legal(m) && Legal(n) && Render(m) == Render(n)
    ensures m == n
  {
    var b, e :| Padded(m[..BASE], b) && Padded(m[BASE..], e);
    var c, f :| Padded(n[..BASE], c) && Padded(n[BASE..], f);
    SameBase(m, n, b, e, c, f);
    SameExtension(m, n, b, e, f);
    assert m == m[..BASE] + m[BASE..] && n == n[..BASE] + n[BASE..];
  }

  // ---- the names a directory lists --------------------------------------------

  /** The entries every subdirectory starts with: one dot for itself, two for its parent. */
  function DotName(two: bool): (m: ShortName)
    ensures Compact(m[..BASE]) == (if two then [DOT, DOT] else [DOT]) && Compact(m[BASE..]) == []
  {
    var second: Byte := if two then DOT else SPACE;
    var m := [DOT, second] + seq(NAME - 2, _ => SPACE);
    CompactPadded(m[BASE..], 0);
    CompactPadded(m[2..BASE], 0);
    assert m[..BASE][1..][1..] == m[2..BASE];
    assert Compact(m[..BASE][1..]) == (if two then [DOT] else []) + Compact(m[2..BASE]);
    m
  }

  ghost predicate Listed(m: ShortName) {
    Legal(m) || m == DotName(false) || m == DotName(true)
  }

  /** A legal name is rendered as no row of dots. */
  lemma NotDots(m: ShortName)
    requires Legal(m)
    ensures Render(m) != [DOT] && Render(m) != [DOT, DOT]
  {
    var b, e :| Padded(m[..BASE], b) && Padded(m[BASE..], e);
    RenderParts(m, b, e);
    CompactPadded(m[..BASE], b);
    CompactPadded(m[BASE..], e);
    assert BeforeDot([DOT]) == [] && BeforeDot([DOT, DOT]) == [];
    assert [DOT][1..] == [] && [DOT, DOT][1..] == [DOT] && DOT in [DOT];
  }

  /** No two names that a directory lists are rendered alike. */
  lemma RenderInjective(m: ShortName, n: ShortName)
    requires Listed(m) && Listed(n) && Render(m) == Render(n)
    ensures m == n
  {
    if Legal(m) && Legal(n) {
      LegalInjective(m, n);
    } else if Legal(m) {
      NotDots(m);
    } else if Legal(n) {
      NotDots(n);
    }
  }

  /** Names that a directory lists contain no NUL, so they are compared in full. */
  lemma ListedWhole(m: ShortName)
    requires Listed(m)
    ensures CString(Render(m)) == Render(m)
  {
    if Legal(m) {
      var b, e :| Padded(m[..BASE], b) && Padded(m[BASE..], e);
      CompactPadded(m[..BASE], b);
      CompactPadded(m[BASE..], e);
    }
    NoNul(Render(m));
  }

  // ---- which names collide -------------------------------------------------------

  lemma {:induction false} NoDotLeft(s: seq<Byte>)
    requires DOT !in s
    ensures DOT !in Compact(s)
  {
    if s != [] {
      NoDotLeft(s[1..]);
      assert s[0] in s;
    }
  }

  function Suffix(ext: seq<Byte>): seq<Byte> {
    if ext == [] then [] else [DOT] + ext
  }

  lemma SuffixInjective(x: seq<Byte>, y: seq<Byte>)
    requires Suffix(x) == Suffix(y)
    ensures x == y
  {
    if x != [] && y != [] {
      assert x == Suffix(x)[1..] && y == Suffix(y)[1..];
    }
  }

  /** Names without dots are rendered alike exactly when their parts agree but for spaces
      and case. */
  lemma RenderSameIff(m: ShortName, n: ShortName)
    requires DOT !in m && DOT !in n
    ensures Render(m) == Render(n) <==>
            Compact(m[..BASE]) == Compact(n[..BASE]) && Compact(m[BASE..]) == Compact(n[BASE..])
  {
    forall c | c in m[..BASE] || c in n[..BASE] ensures c != DOT {
      assert c in m || c in n;
    }
    NoDotLeft(m[..BASE]);
    NoDotLeft(n[..BASE]);
    SplitAtDot(Compact(m[..BASE]), Suffix(Compact(m[BASE..])));
    SplitAtDot(Compact(n[..BASE]), Suffix(Compact(n[BASE..])));
    if Render(m) == Render(n) {
      assert Render(m) == Compact(m[..BASE]) + Suffix(Compact(m[BASE..]));
      assert Render(n) == Compact(n[..BASE]) + Suffix(Compact(n[BASE..]));
      SuffixInjective(Compact(m[BASE..]), Compact(n[BASE..]));
    }
  }

  lemma {:induction false} NoNul(s: seq<Byte>)
    requires 0 !in s
    ensures CString(s) == s
  {
    if s != [] {
      NoNul(s[1..]);
    }
  }

  /** A dot inside a name is mistaken for the one before the extension: "A.B" without an
      extension looks like "A" with extension "B". */
  lemma RenderCollides()
    ensures exists m: ShortName, n: ShortName :: m != n && Render(m) == Render(n)
  {
    var m, n := DottedName(), SplitName();
    assert m[1] != n[1];
    assert Render(m) == Render(n) by {
      assert Compact(m[..BASE]) == [97, DOT, 98] by { Blanks(m[..BASE]); }
      assert Compact(m[BASE..]) == [] by { CompactPadded(m[BASE..], 0); }
      assert Compact(n[..BASE]) == [97] by { CompactPadded(n[..BASE], 1); }
      assert Compact(n[BASE..]) == [98] by { CompactPadded(n[BASE..], 1); }
    }
  }

  function DottedName(): ShortName {
    [65, DOT, 66, SPACE, SPACE, SPACE, SPACE, SPACE, SPACE, SPACE, SPACE]
  }

  function SplitName(): ShortName {
    [65, SPACE, SPACE, SPACE, SPACE, SPACE, SPACE, SPACE, 66, SPACE, SPACE]
  }

  lemma Blanks(s: seq<Byte>)
    requires |s| == BASE && s[0] == 65 && s[1] == DOT && s[2] == 66 && forall i | 3 <= i < BASE :: s[i] == SPACE
    ensures Compact(s) == [97, DOT, 98]
  {
    CompactPadded(s[3..], 0);
    assert s[1..][1..][1..] == s[3..];
    assert Compact(s[1..][1..]) == [98] + Compact(s[3..]);
    assert Compact(s[1..]) == [DOT] + Compact(s[1..][1..]);
  }
}
