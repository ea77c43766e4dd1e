/** Guest `/mnt/<drive>/...` paths: normalization
    (crates/kavach-wsl/src/wire.rs) and translation to Windows paths
    (crates/kavach-wsl/src/correlator.rs). Paths are their UTF-8 bytes. */
module WslPath {
  import opened MachineInts
  import opened Wrappers

  type Path = seq<U8>

  const SLASH: U8 := 0x2f
  const BACKSLASH: U8 := 0x5c
  const COLON: U8 := 0x3a
  const DOT: U8 := 0x2e
  /** "/mnt/" */
  const MNT_PREFIX: Path := [0x2f, 0x6d, 0x6e, 0x74, 0x2f]
  /** "mnt" */
  const MNT: Path := [0x6d, 0x6e, 0x74]

  // ----- Components -----

  /** The pieces between separators; a separator at an end yields an empty piece. */
  function Split(p: Path, sep: U8): (r: seq<Path>)
    ensures |r| >= 1
  {
    if p == [] then [[]]
    else
      var rest := Split(p[1..], sep);
      if p[0] == sep then [[]] + rest else [[p[0]] + rest[0]] + rest[1..]
  }

  function Join(parts: seq<Path>, sep: U8): Path
    requires |parts| >= 1
  {
    if |parts| == 1 then parts[0] else parts[0] + [sep] + Join(parts[1..], sep)
  }

  /** Splitting loses nothing, and no piece holds the separator. */
  lemma {:induction false} SplitJoin(p: Path, sep: U8)
    ensures Join(Split(p, sep), sep) == p
    ensures forall i :: 0 <= i < |Split(p, sep)| ==> sep !in Split(p, sep)[i]
  {
    if p != [] {
      SplitJoin(p[1..], sep);
      var rest := Split(p[1..], sep);
      if p[0] == sep {
        assert Split(p, sep)[1..] == rest;
      } else {
        assert Split(p, sep)[1..] == rest[1..];
      }
    }
  }

  /** The first piece ends at the first separator. */
  lemma {:induction false} SplitAt(p: Path, k: nat, sep: U8)
    requires k <= |p| && sep !in p[..k] && (k < |p| ==> p[k] == sep)
    ensures Split(p, sep) == if k == |p| then [p] else [p[..k]] + Split(p[k + 1..], sep)
  {
    if k > 0 {
      assert p[0] == p[..k][0];
      assert p[1..][..k - 1] == p[..k][1..];
      SplitAt(p[1..], k - 1, sep);
      assert [p[0]] + p[1..] == p && [p[0]] + p[1..][..k - 1] == p[..k];
    }
  }

  // ----- Normalization -----

  predicate BadComponent(c: Path) {
    c == [] || c == [DOT] || c == [DOT, DOT]
  }

  /** An empty component is only allowed at the end. */
  predicate Clean(c: seq<Path>, i: nat)
    requires i < |c|
  {
    !BadComponent(c[i]) || (i == |c| - 1 && c[i] == [])
  }

  /** Absolute under /mnt/, something after it, and no empty, `.` or `..`
      component except one empty last component for a trailing slash. */
  predicate Normalized(p: Path) {
    && MNT_PREFIX < p
    && var c := Split(p, SLASH);
       forall i :: 1 <= i < |c| ==> Clean(c, i)
  }

  /** p[i..j] is a piece between separators, or between one and an end of p. */
  ghost predicate IsPiece(p: Path, i: int, j: int, sep: U8) {
    && 0 <= i <= j <= |p|
    && (i == 0 || p[i - 1] == sep) && (j == |p| || p[j] == sep)
    && forall k :: i <= k < j ==> p[k] != sep
  }

  lemma {:induction false} ByteBehind(p: Path, q: Path, at: int, k: int)
    requires 0 <= at < |p| && q == p[at + 1..] && 0 <= k < |q|
    ensures q[k] == p[k + at + 1]
  {
  }

  lemma {:induction false} SliceBehind(p: Path, q: Path, at: int, i: int, j: int)
    requires 0 <= at < |p| && q == p[at + 1..] && 0 <= i <= j <= |q|
    ensures q[i..j] == p[i + at + 1..j + at + 1]
  {
    forall k | i <= k < j ensures q[k] == p[k + at + 1] {
      ByteBehind(p, q, at, k);
    }
  }

  /** Pieces behind a separator are pieces of what follows it. */
  lemma {:induction false} PieceBehind(p: Path, q: Path, at: int, i: int, j: int, sep: U8)
    requires 0 <= at < |p| && p[at] == sep && q == p[at + 1..] && 0 <= i <= j <= |q|
    ensures IsPiece(q, i, j, sep) <==> IsPiece(p, i + at + 1, j + at + 1, sep)
    ensures q[i..j] == p[i + at + 1..j + at + 1]
  {
    SliceBehind(p, q, at, i, j);
    var a, b := i + at + 1, j + at + 1;
    assert (i == 0 || q[i - 1] == sep) <==> p[a - 1] == sep by {
      if i > 0 {
        ByteBehind(p, q, at, i - 1);
      }
    }
    assert (j == |q| || q[j] == sep) <==> (b == |p| || p[b] == sep) by {
      if j < |q| {
        ByteBehind(p, q, at, j);
      }
    }
    if IsPiece(p, a, b, sep) {
      forall k | i <= k < j ensures q[k] != sep {
        ByteBehind(p, q, at, k);
      }
    }
    if IsPiece(q, i, j, sep) {
      forall k | a <= k < b ensures p[k] != sep {
        ByteBehind(p, q, at, k - at - 1);
      }
    }
  }

  /** The first piece, and the pieces of the rest. */
  lemma {:induction false} FirstPiece(p: Path, sep: U8) returns (first: nat)
    ensures first <= |p| && IsPiece(p, 0, first, sep)
    ensures Split(p, sep) == if first == |p| then [p] else [p[..first]] + Split(p[first + 1..], sep)
  {
    first := FindByte(p, sep);
    SplitAt(p, first, sep);
    forall k | 0 <= k < first ensures p[k] != sep {
      assert p[k] in p[..first];
    }
  }

  lemma {:induction false} PieceOf(p: Path, sep: U8, k: nat) returns (i: int, j: int)
    requires k < |Split(p, sep)|
    ensures IsPiece(p, i, j, sep) && p[i..j] == Split(p, sep)[k]
    ensures (j == |p| <==> k == |Split(p, sep)| - 1) && (i > 0 <==> k > 0)
    decreases |p|
  {
    var first := FirstPiece(p, sep);
    if k == 0 {
      i, j := 0, first;
    } else {
      var q := p[first + 1..];
      i, j := PieceOf(q, sep, k - 1);
      PieceBehind(p, q, first, i, j, sep);
      i, j := i + first + 1, j + first + 1;
    }
  }

  /** Pieces do not overlap: one is the first piece or starts behind it. */
  lemma {:induction false} FirstOrLater(p: Path, first: int, i: int, j: int, sep: U8)
    requires IsPiece(p, 0, first, sep) && IsPiece(p, i, j, sep)
    ensures i == 0 ==> j == first
    ensures i > 0 ==> first < i && p[first] == sep
  {
    if i == 0 {
      assert j < first ==> p[j] != sep;
      assert first < j ==> p[first] != sep;
    } else {
      assert i <= first ==> p[i - 1] != sep;
    }
  }

  lemma {:induction false} IndexOf(p: Path, sep: U8, i: int, j: int) returns (k: nat)
    requires IsPiece(p, i, j, sep)
    ensures k < |Split(p, sep)| && Split(p, sep)[k] == p[i..j]
    ensures (j == |p| <==> k == |Split(p, sep)| - 1) && (i > 0 <==> k > 0)
    decreases |p|
  {
    var first := FirstPiece(p, sep);
    FirstOrLater(p, first, i, j, sep);
    if i == 0 {
      k := 0;
    } else {
      var q := p[first + 1..];
      var i', j' := i - first - 1, j - first - 1;
      PieceBehind(p, q, first, i', j', sep);
      var k' := IndexOf(q, sep, i', j');
      LaterPiece(Split(p, sep), p[..first], Split(q, sep), k', q[i'..j']);
      k := k' + 1;
      assert j' == |q| <==> j == |p|;
    }
  }

  lemma {:induction false} LaterPiece(all: seq<Path>, first: Path, rest: seq<Path>, k: nat, piece: Path)
    requires all == [first] + rest && k < |rest| && rest[k] == piece
    ensures k + 1 < |all| && all[k + 1] == piece && (k == |rest| - 1 <==> k + 1 == |all| - 1)
  {
  }

  /** The same without splitting: under /mnt/, something after it, no piece behind a
      slash that is `.` or `..`, and none that is empty unless the path ends there. */
  lemma {:induction false} NormalizedExactly(p: Path)
    ensures Normalized(p) <==>
            && |p| > 5 && p[..5] == [0x2f, 0x6d, 0x6e, 0x74, 0x2f]
            && forall i, j :: i > 0 && IsPiece(p, i, j, 0x2f) ==>
                 p[i..j] != [0x2e] && p[i..j] != [0x2e, 0x2e] && (p[i..j] == [] ==> j == |p|)
  {
    var c := Split(p, SLASH);
    if Normalized(p) {
      forall i, j | i > 0 && IsPiece(p, i, j, 0x2f)
        ensures p[i..j] != [0x2e] && p[i..j] != [0x2e, 0x2e] && (p[i..j] == [] ==> j == |p|)
      {
        var k := IndexOf(p, SLASH, i, j);
        assert Clean(c, k);
      }
    } else if MNT_PREFIX < p {
      var k :| 1 <= k < |c| && !Clean(c, k);
      var i, j := PieceOf(p, SLASH, k);
    }
  }

  method IsNormalizedMntPath(path: Path) returns (ok: bool)
    ensures ok <==> Normalized(path)
  {
    if !(MNT_PREFIX <= path) {
      return false;
    }
    var remainder := path[|MNT_PREFIX|..];
    if remainder == [] {
      return false;
    }
    var segments := Split(path, SLASH);
    for i := 0 to |segments|
      invariant forall k :: 1 <= k < i ==> Clean(segments, k)
    {
      var seg := segments[i];
      if i == 0 {
        continue;
      }
      if i == |segments| - 1 && seg == [] {
        continue;
      }
      if BadComponent(seg) {
        assert !Clean(segments, i);
        return false;
      }
    }
    return true;
  }

  // ----- Translation -----

  function ToUpper(b: U8): U8 { if 0x61 <= b <= 0x7a then b - 0x20 else b }

  function ToLower(b: U8): U8 { if 0x41 <= b <= 0x5a then b + 0x20 else b }

  /** `str::eq_ignore_ascii_case` */
  predicate EqIgnoreCase(a: Path, b: Path) {
    |a| == |b| && forall i :: 0 <= i < |a| ==> ToLower(a[i]) == ToLower(b[i])
  }

  /** `replace(from, to)` on single bytes */
  function Replace(p: Path, from: U8, to: U8): (r: Path)
    ensures |r| == |p|
    ensures forall i :: 0 <= i < |p| ==> r[i] == if p[i] == from then to else p[i]
  {
    seq(|p|, i requires 0 <= i < |p| => if p[i] == from then to else p[i])
  }

  /** Where the first separator stands, or the length when there is none. */
  function FindByte(p: Path, b: U8): (k: nat)
    ensures k <= |p| && b !in p[..k] && (k < |p| ==> p[k] == b)
  {
    if p == [] || p[0] == b then 0 else 1 + FindByte(p[1..], b)
  }

  function Translate(p: Path): Option<Path> {
    if !(MNT_PREFIX <= p) then None
    else
      var remainder := p[|MNT_PREFIX|..];
      var k := FindByte(remainder, SLASH);
      var drive := remainder[..k];
      if |drive| != 1 then None
      else
        var rest := if k < |remainder| then remainder[k + 1..] else [];
        Some([ToUpper(drive[0]), COLON, BACKSLASH] + Replace(rest, SLASH, BACKSLASH))
  }

  /** A guest path whose drive segment is a single byte: /mnt/d or /mnt/d/... */
  predicate OneByteDrive(p: Path) {
    && MNT_PREFIX <= p
    && |p| >= 6
    && p[5] != SLASH
    && (|p| == 6 || p[6] == SLASH)
  }

  /** What follows the drive and its slash. */
  function Tail(p: Path): Path
    requires OneByteDrive(p)
  {
    if |p| == 6 then [] else p[7..]
  }

  lemma {:induction false} TranslateShape(p: Path)
    ensures Translate(p).Some? <==> OneByteDrive(p)
    ensures OneByteDrive(p) ==>
              Translate(p).value == [ToUpper(p[5]), COLON, BACKSLASH] + Replace(Tail(p), SLASH, BACKSLASH)
  {
    if MNT_PREFIX <= p {
      var remainder := p[|MNT_PREFIX|..];
      var k := FindByte(remainder, SLASH);
      if |remainder| >= 1 {
        assert remainder[0] == p[5];
        if k >= 2 { assert remainder[1] in remainder[..k]; assert remainder[1] == p[6]; }
        if k == 1 {
          assert remainder[..1][0] == p[5];
          assert p[5] in remainder[..1];
          assert |remainder| > 1 ==> remainder[1] == p[6];
          assert |remainder| > 1 ==> remainder[2..] == p[7..];
        }
      }
    }
  }

  /** Translation byte by byte: /mnt/ and one byte that is no slash, alone or before a
      slash, become the drive in upper case, a colon and a backslash; then come the
      other bytes with slashes turned. */
  lemma {:induction false} TranslateExactly(p: Path)
    ensures Translate(p).Some? <==>
            && |p| >= 6 && p[..5] == [0x2f, 0x6d, 0x6e, 0x74, 0x2f]
            && p[5] != 0x2f && (|p| == 6 || p[6] == 0x2f)
    ensures Translate(p).Some? ==>
              var t := Translate(p).value;
              && |t| == (if |p| == 6 then 3 else |p| - 4)
              && t[0] == (if 0x61 <= p[5] <= 0x7a then p[5] - 0x20 else p[5]) && t[1] == 0x3a && t[2] == 0x5c
              && forall i :: 3 <= i < |t| ==> t[i] == if p[i + 4] == 0x2f then 0x5c else p[i + 4]
  {
    TranslateShape(p);
    if OneByteDrive(p) {
      var t := Translate(p).value;
      forall i | 3 <= i < |t| ensures t[i] == if p[i + 4] == 0x2f then 0x5c else p[i + 4] {
        TurnedAt(p, t, i);
      }
    }
  }

  lemma {:induction false} TurnedAt(p: Path, t: Path, i: nat)
    requires OneByteDrive(p) && t == [ToUpper(p[5]), COLON, BACKSLASH] + Replace(Tail(p), SLASH, BACKSLASH)
    requires 3 <= i < |t|
    ensures |p| > 6 && t[i] == if p[i + 4] == 0x2f then 0x5c else p[i + 4]
  {
    assert t[i] == Replace(Tail(p), SLASH, BACKSLASH)[i - 3];
    assert Tail(p)[i - 3] == p[i + 4];
  }

  /** Equal but for bit 5 of ASCII letters. */
  lemma {:induction false} EqIgnoreCaseExactly(a: Path, b: Path)
    ensures EqIgnoreCase(a, b) <==>
            |a| == |b| && forall i :: 0 <= i < |a| ==>
              || a[i] == b[i]
              || (0x41 <= a[i] <= 0x5a && b[i] == a[i] + 0x20)
              || (0x41 <= b[i] <= 0x5a && a[i] == b[i] + 0x20)
  {
    if |a| == |b| {
      forall i | 0 <= i < |a|
        ensures ToLower(a[i]) == ToLower(b[i]) <==>
                a[i] == b[i] || (0x41 <= a[i] <= 0x5a && b[i] == a[i] + 0x20)
                || (0x41 <= b[i] <= 0x5a && a[i] == b[i] + 0x20)
      {
      }
    }
  }

  /** The two spellings of a drive root, /mnt/c and /mnt/c/, made one. */
  function Rooted(p: Path): Path
    requires OneByteDrive(p)
  {
    if |p| == 6 then p + [SLASH] else p
  }

  /** A guest path with its root's slash, backslashes read as slashes. */
  function Folded(p: Path): Path
    requires OneByteDrive(p)
  {
    Replace(Rooted(p), BACKSLASH, SLASH)
  }

  /** b is a byte of a Windows path where the folded guest path has f. */
  predicate FoldsTo(b: U8, f: U8) {
    b != SLASH && f == if b == BACKSLASH then SLASH else b
  }

  /** t is the Windows path, byte by byte, of a guest path on drive d that folds to f. */
  predicate Renders(t: Path, f: Path, d: U8) {
    && |f| >= 7 && |t| == |f| - 4
    && (forall i :: 0 <= i < 5 ==> f[i] == MNT_PREFIX[i])
    && FoldsTo(d, f[5]) && f[6] == SLASH
    && t[0] == ToUpper(d) && t[1] == COLON && t[2] == BACKSLASH
    && forall i :: 3 <= i < |t| ==> FoldsTo(t[i], f[i + 4])
  }

  lemma {:induction false} FoldedBytes(p: Path, t: Path)
    requires OneByteDrive(p) && t == [ToUpper(p[5]), COLON, BACKSLASH] + Replace(Tail(p), SLASH, BACKSLASH)
    ensures Renders(t, Folded(p), p[5])
  {
    var tail := Tail(p);
    assert forall i :: 0 <= i < 5 ==> p[i] == MNT_PREFIX[i];
    forall i | 3 <= i < |t| ensures FoldsTo(t[i], Folded(p)[i + 4]) {
      assert t[i] == Replace(tail, SLASH, BACKSLASH)[i - 3];
      assert tail[i - 3] == p[i + 4];
    }
  }

  lemma {:induction false} FoldedAgree(tp: Path, tq: Path, fp: Path, fq: Path, dp: U8, dq: U8)
    requires Renders(tp, fp, dp) && Renders(tq, fq, dq) && EqIgnoreCase(tp, tq)
    ensures EqIgnoreCase(fp, fq)
  {
    forall i | 0 <= i < |fp|
      ensures ToLower(fp[i]) == ToLower(fq[i])
    {
      if i >= 7 {
        assert ToLower(tp[i - 4]) == ToLower(tq[i - 4]);
      } else if i == 5 {
        assert ToLower(tp[0]) == ToLower(tq[0]);
      }
    }
  }

  lemma {:induction false} TranslatedAgree(tp: Path, tq: Path, fp: Path, fq: Path, dp: U8, dq: U8)
    requires Renders(tp, fp, dp) && Renders(tq, fq, dq) && EqIgnoreCase(fp, fq)
    ensures EqIgnoreCase(tp, tq)
  {
    forall i | 0 <= i < |tp|
      ensures ToLower(tp[i]) == ToLower(tq[i])
    {
      if i >= 3 {
        assert ToLower(fp[i + 4]) == ToLower(fq[i + 4]);
      } else {
        assert ToLower(fp[5]) == ToLower(fq[5]);
      }
    }
  }

  /** Which guest paths share a Windows path, for every pair that translates:
      those equal ignoring ASCII case once a bare drive root gets its slash and
      backslashes count as slashes. */
  lemma {:induction false} TranslationCollisions(p: Path, q: Path)
    requires OneByteDrive(p) && OneByteDrive(q)
    ensures Translate(p).Some? && Translate(q).Some?
    ensures EqIgnoreCase(Translate(p).value, Translate(q).value) <==> EqIgnoreCase(Folded(p), Folded(q))
  {
    TranslateShape(p);
    TranslateShape(q);
    var tp, tq := Translate(p).value, Translate(q).value;
    FoldedBytes(p, tp);
    FoldedBytes(q, tq);
    if EqIgnoreCase(tp, tq) {
      FoldedAgree(tp, tq, Folded(p), Folded(q), p[5], q[5]);
    }
    if EqIgnoreCase(Folded(p), Folded(q)) {
      TranslatedAgree(tp, tq, Folded(p), Folded(q), p[5], q[5]);
    }
  }

  /** Backslash-free guest paths are told apart: same Windows path ignoring case
      exactly when the guest paths agree ignoring case (drive roots aside). */
  lemma {:induction false} TranslationInjective(p: Path, q: Path)
    requires OneByteDrive(p) && OneByteDrive(q)
    requires BACKSLASH !in p && BACKSLASH !in q
    ensures Translate(p).Some? && Translate(q).Some?
    ensures EqIgnoreCase(Translate(p).value, Translate(q).value) <==> EqIgnoreCase(Rooted(p), Rooted(q))
  {
    TranslationCollisions(p, q);
    assert Folded(p) == Rooted(p);
    assert Folded(q) == Rooted(q);
  }

  lemma {:induction false} MntPieces(p: Path)
    requires MNT_PREFIX <= p
    ensures p[0] == SLASH && p[..0] == []
    ensures p[1..][..3] == MNT && p[1..][3] == SLASH && p[1..][4..] == p[5..]
  {
    assert p[1] == MNT_PREFIX[1] && p[2] == MNT_PREFIX[2] && p[3] == MNT_PREFIX[3] && p[4] == MNT_PREFIX[4];
  }

  lemma {:induction false} SplitPrefix(p: Path)
    requires MNT_PREFIX <= p
    ensures Split(p, SLASH) == [[]] + ([MNT] + Split(p[5..], SLASH))
  {
    MntPieces(p);
    SplitMntName(p[1..]);
  }

  lemma {:induction false} SplitMntName(q: Path)
    requires |q| >= 4 && q[..3] == MNT && q[3] == SLASH
    ensures Split(q, SLASH) == [MNT] + Split(q[4..], SLASH)
  {
    SplitAt(q, 3, SLASH);
  }

  lemma {:induction false} SplitDrive(a: Path)
    requires a != [] && a[0] != SLASH && (|a| > 1 ==> a[1] == SLASH)
    ensures Split(a, SLASH) == [[a[0]]] + (if |a| == 1 then [] else Split(a[2..], SLASH))
  {
    assert a[..1] == [a[0]];
    SplitAt(a, 1, SLASH);
    if |a| == 1 {
      assert a == [a[0]];
    }
  }

  /** The components of a guest path under a one-byte drive. */
  lemma {:induction false} SplitMnt(p: Path)
    requires OneByteDrive(p)
    ensures Split(p, SLASH) ==
            [[]] + ([MNT] + ([[p[5]]] + (if |p| == 6 then [] else Split(Tail(p), SLASH))))
  {
    SplitPrefix(p);
    SplitDrive(p[5..]);
    assert |p| > 6 ==> p[5..][2..] == Tail(p);
  }

  /** `/mnt/c/a\b` and `/mnt/c/a/b` */
  const WITH_BACKSLASH: Path := [0x2f, 0x6d, 0x6e, 0x74, 0x2f, 0x63, 0x2f, 0x61, 0x5c, 0x62]
  const WITH_SLASH: Path := [0x2f, 0x6d, 0x6e, 0x74, 0x2f, 0x63, 0x2f, 0x61, 0x2f, 0x62]

  lemma Tails()
    ensures OneByteDrive(WITH_BACKSLASH) && Tail(WITH_BACKSLASH) == [0x61, 0x5c, 0x62]
    ensures OneByteDrive(WITH_SLASH) && Tail(WITH_SLASH) == [0x61, 0x2f, 0x62]
  {
    assert WITH_BACKSLASH[7..] == [0x61, 0x5c, 0x62];
    assert WITH_SLASH[7..] == [0x61, 0x2f, 0x62];
  }

  lemma BackslashNormalized()
    ensures Normalized(WITH_BACKSLASH)
  {
    Tails();
    SplitAt([0x61, 0x5c, 0x62], 3, SLASH);
    NormalizedUnderDrive(WITH_BACKSLASH);
  }

  lemma SlashNormalized()
    ensures Normalized(WITH_SLASH)
  {
    Tails();
    var tail := [0x61, 0x2f, 0x62];
    SplitAt(tail, 1, SLASH);
    SplitAt([0x62], 1, SLASH);
    assert tail[..1] == [0x61] && tail[2..] == [0x62];
    NormalizedUnderDrive(WITH_SLASH);
  }

  /** A backslash is an ordinary byte in a Linux name, and two different
      normalized guest files then meet in one Windows path. */
  lemma BackslashCollides() returns (p: Path, q: Path)
    ensures Normalized(p) && Normalized(q) && OneByteDrive(p) && OneByteDrive(q)
    ensures !EqIgnoreCase(Rooted(p), Rooted(q)) && Translate(p) == Translate(q)
  {
    p, q := WITH_BACKSLASH, WITH_SLASH;
    Tails();
    BackslashNormalized();
    SlashNormalized();
    OneTranslation();
    RootsDiffer();
  }

  lemma OneTranslation()
    ensures Translate(WITH_BACKSLASH) == Translate(WITH_SLASH)
  {
    Tails();
    assert Replace([0x61, 0x5c, 0x62], SLASH, BACKSLASH) == Replace([0x61, 0x2f, 0x62], SLASH, BACKSLASH);
    SameTranslation(WITH_BACKSLASH, WITH_SLASH);
  }

  lemma RootsDiffer()
    requires OneByteDrive(WITH_BACKSLASH) && OneByteDrive(WITH_SLASH)
    ensures !EqIgnoreCase(Rooted(WITH_BACKSLASH), Rooted(WITH_SLASH))
  {
    assert ToLower(WITH_BACKSLASH[8]) != ToLower(WITH_SLASH[8]);
  }

  lemma {:induction false} SameTranslation(p: Path, q: Path)
    requires OneByteDrive(p) && OneByteDrive(q) && p[5] == q[5]
    requires Replace(Tail(p), SLASH, BACKSLASH) == Replace(Tail(q), SLASH, BACKSLASH)
    ensures Translate(p) == Translate(q)
  {
    TranslateShape(p);
    TranslateShape(q);
  }

  lemma {:induction false} NormalizedUnderDrive(p: Path)
    requires OneByteDrive(p) && |p| > 6 && p[5] != DOT
    requires forall i :: 0 <= i < |Split(Tail(p), SLASH)| ==> !BadComponent(Split(Tail(p), SLASH)[i])
    ensures Normalized(p)
  {
    SplitMnt(p);
    var c := Split(p, SLASH);
    assert forall i :: 3 <= i < |c| ==> c[i] == Split(Tail(p), SLASH)[i - 3];
    assert |MNT| == 3;
    assert c[2][0] != DOT;
  }

  lemma {:induction false} SplitReplaced(p: Path)
    requires BACKSLASH !in p
    ensures Split(Replace(p, SLASH, BACKSLASH), BACKSLASH) == Split(p, SLASH)
  {
    var r := Replace(p, SLASH, BACKSLASH);
    if p != [] {
      assert r[1..] == Replace(p[1..], SLASH, BACKSLASH);
      assert BACKSLASH !in p[1..];
      SplitReplaced(p[1..]);
    }
  }

  lemma {:induction false} TranslatedSplit(p: Path)
    requires OneByteDrive(p) && BACKSLASH !in p
    ensures Translate(p).Some?
    ensures SLASH !in Translate(p).value
    ensures Split(Translate(p).value, BACKSLASH) ==
            [[ToUpper(p[5]), COLON]] + Split(Tail(p), SLASH)
  {
    TranslateShape(p);
    assert p[5] in p;
    SplitRendered(Translate(p).value, p[5], Tail(p));
  }

  lemma {:induction false} SplitRendered(t: Path, d: U8, tail: Path)
    requires BACKSLASH !in tail && d != BACKSLASH && d != SLASH
    requires t == [ToUpper(d), COLON, BACKSLASH] + Replace(tail, SLASH, BACKSLASH)
    ensures SLASH !in t && Split(t, BACKSLASH) == [[ToUpper(d), COLON]] + Split(tail, SLASH)
  {
    SplitReplaced(tail);
    assert t[..2] == [ToUpper(d), COLON] && t[3..] == Replace(tail, SLASH, BACKSLASH);
    SplitAt(t, 2, BACKSLASH);
  }

  lemma {:induction false} TailClean(p: Path)
    requires Normalized(p) && OneByteDrive(p)
    ensures forall i :: 0 <= i < |Split(Tail(p), SLASH)| ==> Clean(Split(Tail(p), SLASH), i)
  {
    SplitMnt(p);
    var guest, tail := Split(p, SLASH), Split(Tail(p), SLASH);
    if |p| > 6 {
      forall i | 0 <= i < |tail| ensures Clean(tail, i) {
        assert tail[i] == guest[i + 3] && Clean(guest, i + 3);
      }
    }
  }

  /** The Windows components are the drive followed by the guest's own
      components, so a normalized guest path yields no `/`, no `.` and no `..`. */
  lemma {:induction false} TranslatedComponents(p: Path)
    requires Normalized(p) && OneByteDrive(p) && BACKSLASH !in p
    ensures Translate(p).Some?
    ensures SLASH !in Translate(p).value
    ensures Split(Translate(p).value, BACKSLASH) ==
            [[ToUpper(p[5]), COLON]] + Split(Tail(p), SLASH)
    ensures forall i :: 0 <= i < |Split(Translate(p).value, BACKSLASH)| ==>
              Clean(Split(Translate(p).value, BACKSLASH), i)
  {
    TranslatedSplit(p);
    TailClean(p);
    var tail := Split(Tail(p), SLASH);
    var all := [[ToUpper(p[5]), COLON]] + tail;
    forall i | 0 <= i < |all| ensures Clean(all, i) {
      if i > 0 {
        assert Clean(tail, i - 1);
      }
    }
  }
}
