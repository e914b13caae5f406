/** 8.3 names: the directory form of a path name (to_sfn) and its printed form
    (diritem_get_name), over the bytes of a C string without its terminating NUL. */
module FatNames {
  import opened Bytes

  const SFN_LEN: nat := 11
  const SPACE: byte := 0x20
  const DOT: byte := 0x2E

  function Upper(c: byte): byte {
    if 0x61 <= c <= 0x7A then c - 0x20 else c
  }

  function Blanks(n: nat): (b: seq<byte>)
    ensures |b| == n && forall i :: 0 <= i < n ==> b[i] == SPACE
  {
    seq(n, i => SPACE)
  }

  /** What to_sfn makes of the rest of the source, from position curr of the destination on. */
  function SfnFrom(src: seq<byte>, dest: seq<byte>, curr: nat): (r: seq<byte>)
    requires |dest| == SFN_LEN
    ensures |r| == SFN_LEN
    decreases |src|
  {
    if src == [] || curr >= SFN_LEN then dest
    else if src[0] == DOT then SfnFrom(src[1..], dest, 8)
    else SfnFrom(src[1..], dest[curr := Upper(src[0])], curr + 1)
  }

  function Sfn(src: seq<byte>): (r: seq<byte>)
    ensures |r| == SFN_LEN
  {
    SfnFrom(src, Blanks(SFN_LEN), 0)
  }

  /** A directory name in bytes: the text from byte 0 on, the extension from byte 8 on, blanks elsewhere
      and every letter a capital. */
  ghost predicate Named(d: seq<byte>, a: seq<byte>, e: seq<byte>) {
    && |d| == 11
    && forall i :: 0 <= i < 11 ==>
                     if 8 <= i < 8 + |e| then CapitalOf(e[i - 8], d[i])
                     else if i < |a| then CapitalOf(a[i], d[i])
                     else d[i] == 0x20
  }

  ghost predicate CapitalOf(c: byte, d: byte) {
    d as int == if 0x61 <= c <= 0x7A then c as int - 0x20 else c as int
  }

  /** No lower-case letter is left. A text without a dot stands from byte 0 on; what follows the only dot
      stands from byte 8 on, unless 11 characters come before it. */
  method ToSfn(dest: array<byte>, src: seq<byte>)
    requires dest.Length == SFN_LEN
    modifies dest
    ensures dest[..] == Sfn(src)
    ensures forall i :: 0 <= i < 11 ==> !(0x61 <= dest[i] <= 0x7A)
    ensures 0x2E !in src ==> Named(dest[..], src, [])
    ensures forall k :: 0 <= k < |src| && OnlyDot(src, k) ==>
                          Named(dest[..], src[..k], if k >= 11 then [] else src[k + 1..])
  {
    SfnNames(src);
    hide Named;
    forall i | 0 <= i < SFN_LEN {
      dest[i] := SPACE;
    }
    assert dest[..] == Blanks(SFN_LEN);
    var s, curr: nat := 0, 0;
    while s < |src| && curr < SFN_LEN
      invariant s <= |src|
      invariant SfnFrom(src[s..], dest[..], curr) == Sfn(src)
    {
      var c := src[s];
      assert src[s..][1..] == src[s + 1..];
      s := s + 1;
      if c == DOT {
        curr := 8;
      } else {
        ghost var before := dest[..];
        dest[curr] := Upper(c);
        assert dest[..] == before[curr := Upper(c)];
        curr := curr + 1;
      }
    }
  }

  ghost predicate OnlyDot(src: seq<byte>, k: nat) {
    k < |src| && src[k] == 0x2E && 0x2E !in src[..k] && 0x2E !in src[k + 1..]
  }

  function Uppers(a: seq<byte>): (u: seq<byte>)
    ensures |u| == |a|
  {
    seq(|a|, i requires 0 <= i < |a| => Upper(a[i]))
  }

  /** Copying characters other than the dot into the destination. */
  lemma {:induction false} SfnFromPart(a: seq<byte>, rest: seq<byte>, dest: seq<byte>, curr: nat)
    requires |dest| == SFN_LEN && curr + |a| <= SFN_LEN && 0x2E !in a
    ensures SfnFrom(a + rest, dest, curr)
         == SfnFrom(rest, dest[..curr] + Uppers(a) + dest[curr + |a|..], curr + |a|)
    decreases |a|
  {
    if a == [] {
      assert a + rest == rest && dest[..curr] + Uppers(a) + dest[curr..] == dest;
    } else {
      assert (a + rest)[0] == a[0] && (a + rest)[1..] == a[1..] + rest;
      var d := dest[curr := Upper(a[0])];
      SfnFromPart(a[1..], rest, d, curr + 1);
      assert d[..curr + 1] + Uppers(a[1..]) + d[curr + |a|..] == dest[..curr] + Uppers(a) + dest[curr + |a|..];
    }
  }

  /** As much of the text as there is room for. */
  lemma SfnFromFirst(a: seq<byte>, rest: seq<byte>, dest: seq<byte>, curr: nat)
    requires |dest| == SFN_LEN && curr <= SFN_LEN && 0x2E !in a && (rest == [] || curr + |a| >= SFN_LEN)
    ensures var t := if curr + |a| <= SFN_LEN then a else a[..SFN_LEN - curr];
            SfnFrom(a + rest, dest, curr) == dest[..curr] + Uppers(t) + dest[curr + |t|..]
  {
    var t := if curr + |a| <= SFN_LEN then a else a[..SFN_LEN - curr];
    var more := if curr + |a| <= SFN_LEN then rest else a[SFN_LEN - curr..] + rest;
    assert t + more == a + rest;
    SfnFromPart(t, more, dest, curr);
  }

  lemma SfnNames(src: seq<byte>)
    ensures forall i :: 0 <= i < 11 ==> !(0x61 <= Sfn(src)[i] <= 0x7A)
    ensures 0x2E !in src ==> Named(Sfn(src), src, [])
    ensures forall k :: 0 <= k < |src| && OnlyDot(src, k) ==>
                          Named(Sfn(src), src[..k], if k >= 11 then [] else src[k + 1..])
  {
    SfnFromCapitals(src, Blanks(SFN_LEN), 0);
    if 0x2E !in src {
      SfnFromFirst(src, [], Blanks(SFN_LEN), 0);
      assert src + [] == src;
    }
    forall k | 0 <= k < |src| && OnlyDot(src, k)
      ensures Named(Sfn(src), src[..k], if k >= 11 then [] else src[k + 1..])
    {
      DotNames(src, k);
    }
  }

  lemma DotNames(src: seq<byte>, k: nat)
    requires OnlyDot(src, k)
    ensures Named(Sfn(src), src[..k], if k >= 11 then [] else src[k + 1..])
  {
    hide SfnFrom, Named;
    var a, e, b := src[..k], src[k + 1..], Blanks(SFN_LEN);
    var rest := [0x2E] + e;
    assert src == a + rest;
    if k >= 11 {
      SfnFromFirst(a, rest, b, 0);
      assert k == 11 ==> a[..11] == a;
      assert b[..0] + Uppers(a[..11]) + b[11..] == Uppers(a[..11]);
      FirstNamed(a);
    } else {
      SfnFromPart(a, rest, b, 0);
      var d := b[..0] + Uppers(a) + b[k..];
      assert d == Uppers(a) + b[k..];
      SfnAfterDot(e, d, k);
      OverlayNamed(a, e, d, if |e| <= 3 then e else e[..3]);
    }
  }

  lemma FirstNamed(a: seq<byte>)
    requires |a| >= 11
    ensures Named(Uppers(a[..11]), a, [])
  {
  }

  lemma SfnAfterDot(e: seq<byte>, dest: seq<byte>, curr: nat)
    requires |dest| == SFN_LEN && curr < SFN_LEN && 0x2E !in e
    ensures var t := if |e| <= 3 then e else e[..3];
            SfnFrom([0x2E] + e, dest, curr) == dest[..8] + Uppers(t) + dest[8 + |t|..]
  {
    assert ([0x2E] + e)[1..] == e && e + [] == e;
    hide Uppers;
    SfnFromFirst(e, [], dest, 8);
  }

  lemma OverlayNamed(a: seq<byte>, e: seq<byte>, d: seq<byte>, t: seq<byte>)
    requires |a| < 11 && d == Uppers(a) + Blanks(SFN_LEN)[|a|..] && t == if |e| <= 3 then e else e[..3]
    ensures Named(d[..8] + Uppers(t) + d[8 + |t|..], a, e)
  {
  }

  lemma {:induction false} SfnFromCapitals(src: seq<byte>, dest: seq<byte>, curr: nat)
    requires |dest| == SFN_LEN && forall i :: 0 <= i < 11 ==> !(0x61 <= dest[i] <= 0x7A)
    ensures forall i :: 0 <= i < 11 ==> !(0x61 <= SfnFrom(src, dest, curr)[i] <= 0x7A)
    decreases |src|
  {
    if src != [] && curr < SFN_LEN {
      if src[0] == DOT {
        SfnFromCapitals(src[1..], dest, 8);
      } else {
        SfnFromCapitals(src[1..], dest[curr := Upper(src[0])], curr + 1);
      }
    }
  }

  // ---------------------------------------------------------------- printing

  /** The characters of a name part that are not blanks. */
  function Strip(p: seq<byte>): (r: seq<byte>)
    ensures |r| <= |p|
    ensures forall c :: c in r ==> c in p && c != SPACE
  {
    if p == [] then [] else Strip(p[..|p| - 1]) + (if p[|p| - 1] != SPACE then [p[|p| - 1]] else [])
  }

  /** The parts of a text are stripped one by one, and a single character goes exactly if it is a blank. */
  lemma {:induction false} StripParts(p: seq<byte>, q: seq<byte>)
    ensures Strip(p + q) == Strip(p) + Strip(q)
    ensures |q| == 1 ==> Strip(q) == if q[0] == 0x20 then [] else q
    decreases |q|
  {
    if q == [] {
      assert p + q == p;
    } else {
      var r, c := q[..|q| - 1], q[|q| - 1];
      assert (p + q)[..|p + q| - 1] == p + r && (p + q)[|p + q| - 1] == c;
      StripParts(p, r);
    }
  }

  function ShortName(name: seq<byte>): (r: seq<byte>)
    requires |name| == SFN_LEN
    ensures |r| <= SFN_LEN + 1
  {
    var ext := Strip(name[8..]);
    Strip(name[..8]) + (if ext == [] then [] else [DOT] + ext)
  }

  function Zeros(n: nat): (z: seq<byte>)
    ensures |z| == n && forall i :: 0 <= i < n ==> z[i] == 0
  {
    seq(n, i => 0)
  }

  /** What diritem_get_name leaves in the 12 bytes that it clears first. The dot is taken back when a
      zero follows it: there is no extension, or one that starts with a zero byte. */
  ghost function Printed(name: seq<byte>): (r: seq<byte>)
    requires |name| == SFN_LEN
    ensures |r| == SFN_LEN + 1
  {
    var text, dot := Partial(name, SFN_LEN), |Strip(name[..8])|;
    assert |text| <= SFN_LEN + 1 && dot <= 8;
    var all := text + Zeros(SFN_LEN + 1 - |text|);
    if all[dot + 1] == 0 then all[dot := 0] else all
  }

  /** A name without zero bytes is printed whole, followed by zeros up to byte 12. */
  lemma PrintedIs(name: seq<byte>)
    requires |name| == SFN_LEN && 0 !in name
    ensures Printed(name) == ShortName(name) + Zeros(SFN_LEN + 1 - |ShortName(name)|)
  {
    var a, e := Strip(name[..8]), Strip(name[8..]);
    assert name[8..SFN_LEN] == name[8..];
    assert e != [] ==> e[0] in e;
    hide Strip, Zeros;
    PrintedEnd(a, e);
  }

  /** The dot stays exactly if something follows it. */
  lemma PrintedEnd(a: seq<byte>, e: seq<byte>)
    requires |a| <= 8 && |e| <= 3 && (e != [] ==> e[0] != 0)
    ensures var all := a + [DOT] + e + Zeros(SFN_LEN + 1 - |a + [DOT] + e|);
            && (all[|a| + 1] == 0 <==> e == [])
            && (e == [] ==> all[|a| := 0] == a + Zeros(SFN_LEN + 1 - |a|))
  {
    var all := a + [DOT] + e + Zeros(SFN_LEN + 1 - |a + [DOT] + e|);
    if e != [] {
      assert all[|a| + 1] == e[0];
    } else {
      assert all[|a| + 1] == 0;
      var l, r := all[|a| := 0], a + Zeros(SFN_LEN + 1 - |a|);
      assert |l| == |r| && forall i :: 0 <= i < |l| ==> l[i] == r[i];
    }
  }

  /** k characters of the name and m of the extension, with nothing but blanks behind each. */
  ghost predicate Parts(name: seq<byte>, k: nat, m: nat) {
    && |name| == 11 && k <= 8 && m <= 3
    && forall i :: 0 <= i < 11 ==>
                     if i < k || 8 <= i < 8 + m then name[i] != 0x20 && name[i] != 0 else name[i] == 0x20
  }

  /** The name, then the dot and the extension if there is one, then zeros up to byte 12. */
  ghost predicate PrintedAs(b: seq<byte>, name: seq<byte>, k: nat, m: nat) {
    && |name| == 11 && k <= 8 && m <= 3 && |b| >= 12
    && forall i :: 0 <= i < 12 ==>
                     b[i] == if i < k then name[i]
                             else if m > 0 && i == k then 0x2E
                             else if i < k + 1 + m && m > 0 then name[8 + (i - (k + 1))]
                             else 0
  }

  lemma PartsPrinted(name: seq<byte>, k: nat, m: nat)
    requires Parts(name, k, m)
    ensures 0 !in name && Strip(name[..8]) == name[..k] && Strip(name[8..]) == name[8..8 + m]
    ensures PrintedAs(Printed(name), name, k, m)
  {
    hide Printed, Zeros, PrintedAs, Partial;
    StripBlanks(name[..8], k);
    StripBlanks(name[8..], m);
    assert name[..8][..k] == name[..k] && name[8..][..m] == name[8..8 + m];
    PrintedIs(name);
    ShortPrinted(name, k, m);
  }

  lemma {:induction false} StripBlanks(p: seq<byte>, k: nat)
    requires k <= |p| && forall i :: 0 <= i < |p| ==> (i < k <==> p[i] != 0x20)
    ensures Strip(p) == p[..k]
    decreases |p|
  {
    if k < |p| {
      StripBlanks(p[..|p| - 1], k);
      assert p[..|p| - 1][..k] == p[..k];
    } else if k > 0 {
      StripBlanks(p[..|p| - 1], k - 1);
      assert p[..k] == p && p[..|p| - 1][..k - 1] + [p[k - 1]] == p;
    }
  }

  lemma ShortPrinted(name: seq<byte>, k: nat, m: nat)
    requires Parts(name, k, m) && Strip(name[..8]) == name[..k] && Strip(name[8..]) == name[8..8 + m]
    ensures PrintedAs(ShortName(name) + Zeros(SFN_LEN + 1 - |ShortName(name)|), name, k, m)
  {
    hide Strip;
    var t := ShortName(name);
    assert t == name[..k] + (if m == 0 then [] else [DOT] + name[8..8 + m]);
  }

  /** diritem_get_name: only the first 12 bytes of dest change. */
  method GetName(name: seq<byte>, dest: array<byte>)
    requires |name| == SFN_LEN && dest.Length >= SFN_LEN + 1
    modifies dest
    ensures dest[..] == Printed(name) + old(dest[..])[SFN_LEN + 1..]
    ensures forall k: nat, m: nat {:trigger Parts(name, k, m)} ::
              Parts(name, k, m) ==> PrintedAs(dest[..12], name, k, m)
  {
    hide *;
    ghost var tail := dest[..][SFN_LEN + 1..];
    ClearName(dest);
    ghost var text := [];
    var c: nat, ext: int := 0, -1;
    var i := 0;
    PartialStep(name, 0);
    while i < SFN_LEN
      invariant i <= SFN_LEN && c == |text| <= i + (if i >= 8 then 1 else 0)
      invariant text == Partial(name, i)
      invariant (i >= 8) == (ext >= 0) && (ext >= 0 ==> ext == |Strip(name[..8])|)
      invariant Holding(dest[..], text, tail)
    {
      PartialStep(name, i);
      if name[i] != SPACE {
        PutChar(dest, c, name[i], text, tail);
        text := text + [name[i]];
        c := c + 1;
      }
      if i == 7 {
        ext := c;
        PutChar(dest, c, DOT, text, tail);
        text := text + [DOT];
        c := c + 1;
      }
      i := i + 1;
    }
    DropDot(name, dest, ext, tail);
    assert dest[..12] == Printed(name);
    forall k: nat, m: nat {:trigger Parts(name, k, m)} | Parts(name, k, m)
      ensures PrintedAs(dest[..12], name, k, m)
    {
      PartsPrinted(name, k, m);
    }
  }

  /** The text at the front of a buffer, zeros up to byte 12, then the old bytes. */
  ghost predicate Holding(b: seq<byte>, text: seq<byte>, tail: seq<byte>) {
    |text| <= SFN_LEN + 1 && b == text + Zeros(SFN_LEN + 1 - |text|) + tail
  }

  method ClearName(dest: array<byte>)
    requires dest.Length >= SFN_LEN + 1
    modifies dest
    ensures SFN_LEN == 11 && Holding(dest[..], [], old(dest[..])[SFN_LEN + 1..])
  {
    forall i | 0 <= i < SFN_LEN + 1 {
      dest[i] := 0;
    }
  }

  /** The text after i characters of the directory name: the dot goes in after the eighth. */
  ghost function Partial(name: seq<byte>, i: nat): seq<byte>
    requires |name| == SFN_LEN && i <= SFN_LEN
  {
    if i < 8 then Strip(name[..i]) else Strip(name[..8]) + [DOT] + Strip(name[8..i])
  }

  lemma PartialStep(name: seq<byte>, i: nat)
    requires |name| == SFN_LEN && i < SFN_LEN
    ensures SFN_LEN == 11
    ensures var next := Partial(name, i) + (if name[i] != SPACE then [name[i]] else []);
            Partial(name, i + 1) == if i == 7 then next + [DOT] else next
    ensures Partial(name, 0) == []
    ensures i == 7 ==> Strip(name[..8]) == Partial(name, 7) + (if name[7] != SPACE then [name[7]] else [])
  {
    if i < 8 {
      assert name[..i + 1][..i] == name[..i];
      if i == 7 {
        assert Strip(name[8..8]) == [];
      }
    } else {
      assert name[8..i + 1][..i - 8] == name[8..i];
    }
  }

  method PutChar(dest: array<byte>, c: nat, ch: byte, ghost text: seq<byte>, ghost tail: seq<byte>)
    requires c == |text| <= SFN_LEN && Holding(dest[..], text, tail)
    modifies dest
    ensures Holding(dest[..], text + [ch], tail)
  {
    ghost var before := dest[..];
    dest[c] := ch;
    assert dest[..] == before[c := ch];
  }

  /** A name without extension is printed without the dot. */
  method DropDot(name: seq<byte>, dest: array<byte>, ext: nat, ghost tail: seq<byte>)
    requires |name| == SFN_LEN && ext == |Strip(name[..8])|
    requires Holding(dest[..], Partial(name, SFN_LEN), tail)
    modifies dest
    ensures dest[..] == Printed(name) + tail
  {
    ghost var before := dest[..];
    assert before[ext + 1] == dest[ext + 1];
    if dest[ext + 1] == 0 {
      dest[ext] := 0;
      assert dest[..] == before[ext := 0];
    }
  }

  // ---------------------------------------------------------------- round trip

  /** What a directory name made by to_sfn can contain. */
  ghost predicate Clean(name: seq<byte>) {
    forall i :: 0 <= i < |name| ==> name[i] != 0x2E && name[i] != 0 && !(0x61 <= name[i] <= 0x7A)
  }

  /** No blank stands before a character of the same name part. */
  predicate PartJustified(p: seq<byte>) {
    forall i, j :: 0 <= i < j < |p| && p[i] == SPACE ==> p[j] == SPACE
  }

  predicate LeftJustified(name: seq<byte>)
    requires |name| == SFN_LEN
  {
    PartJustified(name[..8]) && PartJustified(name[8..])
  }

  ghost predicate CString(src: seq<byte>) {
    0 !in src
  }

  lemma {:induction false} SfnFromClean(src: seq<byte>, dest: seq<byte>, curr: nat)
    requires CString(src) && |dest| == SFN_LEN && Clean(dest)
    ensures Clean(SfnFrom(src, dest, curr))
    decreases |src|
  {
    if src != [] && curr < SFN_LEN {
      if src[0] == DOT {
        SfnFromClean(src[1..], dest, 8);
      } else {
        SfnFromClean(src[1..], dest[curr := Upper(src[0])], curr + 1);
      }
    }
  }

  /** A source without blanks keeps both parts left-justified. */
  lemma {:induction false} SfnFromJustified(src: seq<byte>, dest: seq<byte>, curr: nat)
    requires SPACE !in src && |dest| == SFN_LEN && LeftJustified(dest)
    requires forall i :: (if curr >= 8 then 8 else 0) <= i < curr && i < SFN_LEN ==> dest[i] != SPACE
    ensures LeftJustified(SfnFrom(src, dest, curr))
    decreases |src|
  {
    if src != [] && curr < SFN_LEN {
      if src[0] == DOT {
        SfnFromJustified(src[1..], dest, 8);
      } else {
        var d := dest[curr := Upper(src[0])];
        assert d[..8] == if curr < 8 then dest[..8][curr := Upper(src[0])] else dest[..8];
        assert d[8..] == if curr < 8 then dest[8..] else dest[8..][curr - 8 := Upper(src[0])];
        SfnFromJustified(src[1..], d, curr + 1);
      }
    }
  }

  lemma SfnOfPlainString(src: seq<byte>)
    requires CString(src)
    ensures Clean(Sfn(src))
    ensures SPACE !in src ==> LeftJustified(Sfn(src))
  {
    SfnFromClean(src, Blanks(SFN_LEN), 0);
    if SPACE !in src {
      SfnFromJustified(src, Blanks(SFN_LEN), 0);
    }
  }

  /** Copying capitals into the destination. */
  lemma SfnFromCopy(a: seq<byte>, rest: seq<byte>, dest: seq<byte>, curr: nat)
    requires |dest| == SFN_LEN && curr + |a| <= SFN_LEN && Clean(a)
    ensures SfnFrom(a + rest, dest, curr) == SfnFrom(rest, dest[..curr] + a + dest[curr + |a|..], curr + |a|)
  {
    SfnFromPart(a, rest, dest, curr);
    assert Uppers(a) == a;
  }

  ghost function Justify(p: seq<byte>): (r: seq<byte>)
    ensures |r| == |p|
  {
    Strip(p) + Blanks(|p| - |Strip(p)|)
  }

  lemma {:induction false} JustifyIff(p: seq<byte>)
    ensures Justify(p) == p <==> PartJustified(p)
    ensures PartJustified(p) && p != [] && p[|p| - 1] != SPACE ==> Strip(p) == p
    decreases |p|
  {
    if p != [] {
      var q, c := p[..|p| - 1], p[|p| - 1];
      JustifyIff(q);
      if c == SPACE {
        assert Justify(p) == Justify(q) + [SPACE];
        assert p == q + [c];
        assert Justify(p) == p <==> Justify(q) == q by {
          assert Justify(p)[..|q|] == Justify(q);
        }
      } else {
        StripFull(p);
      }
    }
  }

  /** With a last character that is not blank, justified means no blank at all. */
  lemma StripFull(p: seq<byte>)
    requires p != [] && p[|p| - 1] != SPACE
    ensures Justify(p) == p <==> SPACE !in p
    ensures PartJustified(p) <==> SPACE !in p
    ensures SPACE !in p ==> Strip(p) == p
  {
    StripAll(p);
    hide Strip;
    assert |Strip(p)| < |p| ==> Justify(p)[|p| - 1] == SPACE;
    assert |Strip(p)| == |p| ==> Justify(p) == Strip(p);
  }

  lemma {:induction false} StripAll(p: seq<byte>)
    ensures SPACE !in p <==> |Strip(p)| == |p|
    ensures SPACE !in p ==> Strip(p) == p
    decreases |p|
  {
    if p != [] {
      StripAll(p[..|p| - 1]);
      assert p == p[..|p| - 1] + [p[|p| - 1]];
    }
  }

  lemma StripClean(name: seq<byte>, p: seq<byte>)
    requires Clean(name) && forall i :: 0 <= i < |p| ==> p[i] in name
    ensures Clean(Strip(p))
  {
    var r := Strip(p);
    assert forall i :: 0 <= i < |r| ==> r[i] in r && r[i] in p;
  }

  /** Converting a printed name back justifies both parts. */
  lemma SfnOfShortName(name: seq<byte>)
    requires |name| == SFN_LEN && Clean(name)
    ensures Sfn(ShortName(name)) == Justify(name[..8]) + Justify(name[8..])
  {
    StripClean(name, name[..8]);
    StripClean(name, name[8..]);
    hide Strip, SfnFrom;
    SfnOfParts(Strip(name[..8]), Strip(name[8..]));
  }

  lemma SfnOfParts(a: seq<byte>, e: seq<byte>)
    requires |a| <= 8 && |e| <= 3 && Clean(a) && Clean(e)
    ensures Sfn(a + (if e == [] then [] else [DOT] + e)) == a + Blanks(8 - |a|) + (e + Blanks(3 - |e|))
  {
    hide SfnFrom, Clean;
    var b := Blanks(SFN_LEN);
    var rest, d := if e == [] then [] else [DOT] + e, b[..0] + a + b[|a|..];
    SfnFromCopy(a, rest, b, 0);
    assert d == a + Blanks(8 - |a|) + Blanks(3);
    if e == [] {
      SfnFromNone(d, |a|);
    } else {
      SfnFromExtension(e, d, |a|);
    }
  }

  lemma SfnFromNone(d: seq<byte>, curr: nat)
    requires |d| == SFN_LEN
    ensures SfnFrom([], d, curr) == d
  {
  }

  lemma SfnFromExtension(e: seq<byte>, d: seq<byte>, curr: nat)
    requires |d| == SFN_LEN && curr <= 8 && |e| <= 3 && Clean(e)
    ensures SfnFrom([DOT] + e, d, curr) == d[..8] + e + d[8 + |e|..]
  {
    var rest := [DOT] + e;
    assert rest[1..] == e && e + [] == e;
    SfnFromCopy(e, [], d, 8);
  }

  /** Printing a name and converting it back gives the name exactly when both parts are left-justified. */
  lemma JustifiedName(n: seq<byte>)
    requires |n| == SFN_LEN && Clean(n)
    ensures Sfn(ShortName(n)) == n <==> LeftJustified(n)
  {
    SfnOfShortName(n);
    JustifyIff(n[..8]);
    JustifyIff(n[8..]);
    assert n == n[..8] + n[8..];
    if Sfn(ShortName(n)) == n {
      assert (Justify(n[..8]) + Justify(n[8..]))[..8] == n[..8];
      assert (Justify(n[..8]) + Justify(n[8..]))[8..] == n[8..];
    }
  }

  /** What to_sfn makes of a path is printed and converted back to itself exactly when both parts are
      left-justified; a path without blanks always gives such a name. */
  lemma NameRoundTrip(src: seq<byte>)
    requires CString(src)
    ensures Sfn(ShortName(Sfn(src))) == Sfn(src) <==> LeftJustified(Sfn(src))
    ensures SPACE !in src ==> Sfn(ShortName(Sfn(src))) == Sfn(src)
  {
    SfnOfPlainString(src);
    JustifiedName(Sfn(src));
  }

  /** A blank inside the name is lost: "A B" prints as "AB". */
  lemma BlankIsLost()
    ensures var src: seq<byte> := [0x41, SPACE, 0x42];
            CString(src) && Sfn(ShortName(Sfn(src))) != Sfn(src)
  {
    var src: seq<byte> := [0x41, SPACE, 0x42];
    SfnFromCopy(src, [], Blanks(SFN_LEN), 0);
    assert src + [] == src;
    var n := Sfn(src);
    assert n[..8][1] == SPACE && n[..8][2] == 0x42;
    NameRoundTrip(src);
  }

  /** The C string at the front of a buffer. */
  function CStringIn(b: seq<byte>): (s: seq<byte>)
    ensures CString(s) && s <= b && (|s| < |b| ==> b[|s|] == 0)
  {
    if b == [] || b[0] == 0 then [] else [b[0]] + CStringIn(b[1..])
  }

  lemma {:induction false} CStringThenZero(s: seq<byte>, rest: seq<byte>)
    requires CString(s)
    ensures CStringIn(s + rest) == s + CStringIn(rest)
  {
    if s != [] {
      assert (s + rest)[1..] == s[1..] + rest;
      CStringThenZero(s[1..], rest);
    } else {
      assert s + rest == rest;
    }
  }

  /** The string printed into a buffer is the short name, unless that fills all 12 bytes and what the
      caller left behind them continues it. */
  lemma PrintedString(name: seq<byte>, tail: seq<byte>)
    requires |name| == SFN_LEN && Clean(name)
    ensures var s := CStringIn(Printed(name) + tail);
            && s == ShortName(name) + (if |ShortName(name)| <= SFN_LEN then [] else CStringIn(tail))
            && (s == ShortName(name) <==> |ShortName(name)| <= SFN_LEN || tail == [] || tail[0] == 0)
  {
    var t := ShortName(name);
    ShortIsString(name);
    PrintedIs(name);
    hide ShortName, Printed;
    var z := Zeros(SFN_LEN + 1 - |t|);
    assert Printed(name) + tail == t + (z + tail);
    CStringThenZero(t, z + tail);
    if |t| > SFN_LEN {
      assert z + tail == tail;
    }
  }

  lemma ShortIsString(name: seq<byte>)
    requires |name| == SFN_LEN && Clean(name)
    ensures 0 !in name && CString(ShortName(name))
  {
    StripClean(name, name[..8]);
    StripClean(name, name[8..]);
    var a, e := Strip(name[..8]), Strip(name[8..]);
    hide Strip;
    assert forall c :: c in a ==> c != 0 by {
      forall c | c in a ensures c != 0 {
        var i :| 0 <= i < |a| && a[i] == c;
      }
    }
    assert forall c :: c in e ==> c != 0 by {
      forall c | c in e ensures c != 0 {
        var i :| 0 <= i < |e| && e[i] == c;
      }
    }
  }

  /** to_sfn stops after 11 characters, so it does not see what follows a full name. */
  lemma SfnStops(name: seq<byte>, more: seq<byte>)
    requires |name| == SFN_LEN && Clean(name) && (|ShortName(name)| <= SFN_LEN ==> more == [])
    ensures Sfn(ShortName(name) + more) == Sfn(ShortName(name))
  {
    var a, e := Strip(name[..8]), Strip(name[8..]);
    if |ShortName(name)| <= SFN_LEN {
      assert ShortName(name) + more == ShortName(name);
    } else {
      StripClean(name, name[..8]);
      StripClean(name, name[8..]);
      hide Strip;
      var b := Blanks(SFN_LEN);
      var rest, d := [DOT] + e, b[..0] + a + b[|a|..];
      assert |a| == 8 && |e| == 3;
      assert ShortName(name) == a + rest && ShortName(name) + more == a + (rest + more);
      SfnFromCopy(a, rest, b, 0);
      SfnFromCopy(a, rest + more, b, 0);
      assert rest[1..] == e + [] && (rest + more)[1..] == e + more;
      SfnFromCopy(e, [], d, 8);
      SfnFromCopy(e, more, d, 8);
    }
  }

  /** Printing a directory name into a buffer and converting the string found there gives the name back
      exactly when it has no dot, zero or lower-case letter and both its parts are left-justified,
      whatever the buffer held. For such characters the string is the printed name unless that has 12
      characters and the caller's byte 12 is not zero. */
  method PrintAndConvert(name: seq<byte>, dest: array<byte>, sfn: array<byte>)
    requires |name| == SFN_LEN && dest.Length >= SFN_LEN + 1 && sfn.Length == SFN_LEN && sfn != dest
    modifies dest, sfn
    ensures sfn[..] == name <==> Clean(name) && LeftJustified(name)
    ensures Clean(name) ==>
              (CStringIn(dest[..]) == ShortName(name) <==>
               |ShortName(name)| <= SFN_LEN || dest.Length == SFN_LEN + 1 || old(dest[SFN_LEN + 1]) == 0)
  {
    hide *;
    ghost var tail := dest[SFN_LEN + 1..];
    assert |tail| == dest.Length - (SFN_LEN + 1);
    GetName(name, dest);
    var s := CStringIn(dest[..]);
    SfnOfPlainString(s);
    if Clean(name) {
      PrintedString(name, tail);
      SfnStops(name, if |ShortName(name)| <= SFN_LEN then [] else CStringIn(tail));
      JustifiedName(name);
    }
    ToSfn(sfn, s);
  }
}
