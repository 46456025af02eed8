/** 8.3 names: the 11-byte form kept in directory entries and the dotted form people type. */
module FatNames {
  import opened Bytes
  import opened FatFormat

  type CName = s: seq<byte> | 0 !in s witness []

  const SPACE: byte := 32
  const DOT: byte := 46

  function Upper(c: byte): byte {
    if 97 <= c <= 122 then c - 32 else c
  }

  function UpperAll(s: seq<byte>): (r: seq<byte>)
    ensures |r| == |s|
  {
    seq(|s|, i requires 0 <= i < |s| => Upper(s[i]))
  }

  /** `s` cut or space-filled to `n` bytes, in upper case. */
  function Field(s: seq<byte>, n: nat): (r: seq<byte>)
    ensures |r| == n
  {
    seq(n, i requires 0 <= i < n => if i < |s| then Upper(s[i]) else SPACE)
  }

  /** Index of the last dot, or the length when there is none. */
  function LastDot(s: seq<byte>): (d: nat)
    ensures d <= |s|
    ensures d < |s| ==> s[d] == DOT
    ensures forall i :: d < i < |s| ==> s[i] != DOT
    ensures d == |s| ==> DOT !in s
  {
    if |s| == 0 then 0
    else if s[|s| - 1] == DOT then |s| - 1
    else
      var d := LastDot(s[..|s| - 1]);
      assert s == s[..|s| - 1] + [s[|s| - 1]];
      if d == |s| - 1 then |s| else d
  }

  function Encoded(name: CName): RawName {
    var d := LastDot(name);
    Field(name[..d], 8) + (if d < |name| then Field(name[d + 1..], 3) else Field([], 3))
  }

  method Encode83(name: CName) returns (raw: RawName)
    ensures raw == Encoded(name)
  {
    var raw8 := seq(8, _ => SPACE);
    var raw3 := seq(3, _ => SPACE);
    var dot := -1;
    var i := 0;
    while i < |name|
      invariant i <= |name|
      invariant -1 <= dot < i
      invariant dot >= 0 ==> name[dot] == DOT
      invariant forall j :: dot < j < i ==> name[j] != DOT
    {
      if name[i] == DOT { dot := i; }
      i := i + 1;
    }
    var baseLen := if dot >= 0 then dot else |name|;
    assert baseLen == LastDot(name);
    if baseLen > 8 { baseLen := 8; }
    i := 0;
    while i < baseLen
      invariant i <= baseLen
      invariant |raw8| == 8 && forall j :: 0 <= j < 8 ==> raw8[j] == if j < i then Upper(name[j]) else SPACE
    {
      raw8 := raw8[i := Upper(name[i])];
      i := i + 1;
    }
    assert raw8 == Field(name[..LastDot(name)], 8);
    if dot >= 0 {
      var extLen := |name| - dot - 1;
      if extLen > 3 { extLen := 3; }
      i := 0;
      while i < extLen
        invariant i <= extLen
        invariant |raw3| == 3 && forall j :: 0 <= j < 3 ==> raw3[j] == if j < i then Upper(name[dot + 1 + j]) else SPACE
      {
        raw3 := raw3[i := Upper(name[dot + 1 + i])];
        i := i + 1;
      }
      assert raw3 == Field(name[dot + 1..], 3);
    } else {
      assert raw3 == Field([], 3);
    }
    raw := raw8 + raw3;
  }

  /** The bytes of a field before its first space. */
  function UpToSpace(s: seq<byte>): (r: seq<byte>)
    ensures r <= s && SPACE !in r
    ensures |r| < |s| ==> s[|r|] == SPACE
  {
    if s == [] || s[0] == SPACE then [] else [s[0]] + UpToSpace(s[1..])
  }

  function Formatted(raw: RawName): seq<byte> {
    UpToSpace(raw[..8]) +
    (if exists i :: 8 <= i < 11 && raw[i] != SPACE then [DOT] + UpToSpace(raw[8..]) else [])
  }

  lemma {:induction false} UpToSpaceIs(s: seq<byte>, n: nat)
    requires n <= |s| && SPACE !in s[..n] && (n < |s| ==> s[n] == SPACE)
    ensures UpToSpace(s) == s[..n]
  {
    if n > 0 {
      assert s[0] == s[..n][0];
      assert s[..n] == [s[0]] + s[1..][..n - 1];
      UpToSpaceIs(s[1..], n - 1);
    }
  }

  method HasExtension(raw: RawName) returns (hasExt: bool)
    ensures hasExt <==> exists i :: 8 <= i < 11 && raw[i] != SPACE
  {
    hasExt := false;
    var n := 0;
    while n < 3 && !hasExt
      invariant n <= 3
      invariant hasExt ==> exists i :: 8 <= i < 11 && raw[i] != SPACE
      invariant !hasExt ==> forall i :: 8 <= i < 8 + n ==> raw[i] == SPACE
    {
      if raw[8 + n] != SPACE { hasExt := true; }
      n := n + 1;
    }
  }

  /** One field of the raw name, without its padding. */
  method CopyField(raw: RawName, from: nat, to: nat) returns (part: seq<byte>)
    requires from <= to <= |raw|
    ensures part == UpToSpace(raw[from..to])
  {
    part := [];
    var n := 0;
    while n < to - from && raw[from + n] != SPACE
      invariant n <= to - from && part == raw[from..to][..n] && SPACE !in part
    {
      part := part + [raw[from + n]];
      n := n + 1;
    }
    UpToSpaceIs(raw[from..to], n);
  }

  method Format83(raw: RawName) returns (buf: seq<byte>)
    ensures buf == Formatted(raw)
  {
    hide UpToSpace;
    buf := CopyField(raw, 0, 8);
    var hasExt := HasExtension(raw);
    if hasExt {
      var ext := CopyField(raw, 8, 11);
      assert raw[8..11] == raw[8..];
      buf := buf + [DOT] + ext;
      assert buf == UpToSpace(raw[..8]) + ([DOT] + ext);
    } else {
      assert buf == buf + [];
    }
  }

  // ----- the two forms undo each other -----

  predicate Plain(s: seq<byte>) {
    SPACE !in s && DOT !in s
  }

  /** A name that fits 8.3: a base of 1 to 8 bytes and, after a dot, an extension of 1 to 3. */
  predicate Fits(name: CName) {
    var d := LastDot(name);
    && 1 <= d <= 8 && Plain(name[..d])
    && (d < |name| ==> 2 <= |name| - d <= 4 && Plain(name[d + 1..]))
  }

  lemma FieldBack(s: seq<byte>, n: nat)
    requires |s| <= n && SPACE !in s
    ensures UpToSpace(Field(s, n)) == UpperAll(s)
  {
    var f := Field(s, n);
    assert f[..|s|] == UpperAll(s);
    forall i | 0 <= i < |s| ensures f[..|s|][i] != SPACE {
      assert s[i] in s;
    }
    UpToSpaceIs(f, |s|);
  }

  lemma FormatNoExt(base: seq<byte>)
    requires |base| <= 8 && SPACE !in base
    ensures Formatted(Field(base, 8) + Field([], 3)) == UpperAll(base)
  {
    var raw := Field(base, 8) + Field([], 3);
    assert raw[..8] == Field(base, 8);
    forall i | 8 <= i < 11 ensures raw[i] == SPACE {
      assert raw[i] == Field([], 3)[i - 8];
    }
    FieldBack(base, 8);
  }

  lemma FormatWithExt(base: seq<byte>, ext: seq<byte>)
    requires |base| <= 8 && SPACE !in base && 1 <= |ext| <= 3 && SPACE !in ext
    ensures Formatted(Field(base, 8) + Field(ext, 3)) == UpperAll(base) + [DOT] + UpperAll(ext)
  {
    var raw := Field(base, 8) + Field(ext, 3);
    assert raw[..8] == Field(base, 8) && raw[8..] == Field(ext, 3);
    FieldBack(base, 8);
    FieldBack(ext, 3);
    assert ext[0] in ext && raw[8] == Field(ext, 3)[0];
  }

  /** Encoding a name that fits and formatting it again gives the name in upper case. */
  lemma FormatEncoded(name: CName)
    requires Fits(name)
    ensures Formatted(Encoded(name)) == UpperAll(name)
  {
    var d := LastDot(name);
    hide Formatted, Field, UpToSpace;
    if d < |name| {
      FormatWithExt(name[..d], name[d + 1..]);
      assert UpperAll(name) == UpperAll(name[..d]) + [DOT] + UpperAll(name[d + 1..]);
    } else {
      FormatNoExt(name);
      assert name[..d] == name;
    }
  }

  lemma UpperLastDot(s: seq<byte>)
    ensures LastDot(UpperAll(s)) == LastDot(s)
  {
    var u, d := UpperAll(s), LastDot(s);
    assert forall i | 0 <= i < |s| :: u[i] == DOT <==> s[i] == DOT;
  }

  /** The 11-byte form does not see letter case. */
  lemma EncodedUpper(name: CName)
    ensures 0 !in UpperAll(name)
    ensures Encoded(UpperAll(name)) == Encoded(name)
  {
    var u, d := UpperAll(name), LastDot(name);
    UpperLastDot(name);
    forall i | 0 <= i < |u| ensures u[i] != 0 {
      assert name[i] in name;
    }
    assert Field(u[..d], 8) == Field(name[..d], 8);
    if d < |name| {
      assert Field(u[d + 1..], 3) == Field(name[d + 1..], 3);
    }
  }

  /** Names that fit share an 11-byte form exactly when they agree up to letter case. */
  lemma EncodedEqual(a: CName, b: CName)
    requires Fits(a) && Fits(b)
    ensures Encoded(a) == Encoded(b) <==> UpperAll(a) == UpperAll(b)
  {
    hide Encoded, Formatted, UpperAll;
    FormatEncoded(a);
    FormatEncoded(b);
    EncodedUpper(a);
    EncodedUpper(b);
  }
}
