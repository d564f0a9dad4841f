/**
  Strings that grow by a byte at a time. Growing copies the old contents as a
  C string into zeroed memory, so whatever follows a NUL byte is lost.
 */
module StringBuffer {
  import opened JsonValue

  const INITIAL_SIZE: nat := 64

  datatype Buffer = Buffer(str: seq<Byte>, size: nat)

  const EMPTY: Buffer := Buffer([], INITIAL_SIZE)

  /** There is room for the terminator. */
  predicate Roomy(b: Buffer) {
    |b.str| < b.size && INITIAL_SIZE <= b.size
  }

  /** What is left of the contents when they are copied as a C string. */
  function Copied(s: seq<Byte>): (t: seq<Byte>)
    ensures |t| == |s|
  {
    if s == [] then []
    else if s[0] == 0 then [0] + Zeros(|s| - 1)
    else [s[0]] + Copied(s[1..])
  }

  function Zeros(n: nat): (t: seq<Byte>)
    ensures |t| == n && forall i :: 0 <= i < n ==> t[i] == 0
  {
    seq(n, _ => 0)
  }

  function Grown(b: Buffer): (r: Buffer)
    ensures |r.str| == |b.str| && |r.str| + 1 < r.size && b.size <= r.size
  {
    var n := |b.str| + 9;
    Buffer(Copied(b.str), if b.size * 2 < n then n else b.size * 2)
  }

  /** The contents once there is room for one more byte. */
  function WithRoom(b: Buffer): (r: Buffer)
    requires Roomy(b)
    ensures |r.str| == |b.str| && |r.str| + 1 < r.size && Roomy(r)
  {
    if b.size - |b.str| <= 1 then Grown(b) else b
  }

  function AppendChar(b: Buffer, c: Byte): (r: Buffer)
    requires Roomy(b)
    ensures Roomy(r)
  {
    var w := WithRoom(b);
    Buffer(w.str + [c], w.size)
  }

  function AppendAll(b: Buffer, s: seq<Byte>): (r: Buffer)
    requires Roomy(b)
    ensures Roomy(r)
    decreases |s|
  {
    if s == [] then b else AppendAll(AppendChar(b, s[0]), s[1..])
  }

  /** The string made by appending bytes to a new one. */
  function Stored(s: seq<Byte>): seq<Byte> {
    AppendAll(EMPTY, s).str
  }

  lemma {:induction false} CopiedIs(s: seq<Byte>)
    ensures forall j :: 0 <= j < |s| ==> Copied(s)[j] == if 0 in s[..j] then 0 else s[j]
  {
    if s != [] && s[0] != 0 {
      CopiedIs(s[1..]);
      forall j | 0 < j < |s| ensures Copied(s)[j] == if 0 in s[..j] then 0 else s[j] {
        assert s[..j] == [s[0]] + s[1..][..j - 1];
        assert Copied(s)[j] == Copied(s[1..])[j - 1];
      }
    } else if s != [] {
      forall j | 0 < j < |s| ensures 0 in s[..j] {
        assert s[..j][0] == 0;
      }
    }
  }

  /** Nothing but zeros follows the first zero. */
  predicate Harmless(s: seq<Byte>) {
    forall i, j {:trigger s[i], s[j]} :: 0 <= i < j < |s| && s[i] == 0 ==> s[j] == 0
  }

  /** Copying loses nothing exactly if nothing but zeros follows the first zero. */
  lemma CopiedWhole(s: seq<Byte>)
    ensures Copied(s) == s <==> Harmless(s)
    ensures 0 !in s ==> Harmless(s)
  {
    CopiedIs(s);
    if Harmless(s) {
      forall j | 0 <= j < |s| ensures Copied(s)[j] == s[j] {
        if 0 in s[..j] { var i :| 0 <= i < j && s[..j][i] == 0; assert s[i] == 0; }
      }
    } else {
      var i, j :| 0 <= i < j < |s| && s[i] == 0 && s[j] != 0;
      assert s[..j][i] == 0;
    }
  }

  /** The lengths at which a new string grows: one less than 64, 128, 256 and so on. */
  predicate GrowsAt(size: nat, n: nat)
    requires size > 0
    decreases n - size
  {
    n + 1 == size || (n + 1 > size && GrowsAt(2 * size, n))
  }

  /** A zero stays a zero, and the length is that of what was appended. */
  lemma {:induction false} ZerosStay(b: Buffer, s: seq<Byte>)
    requires Roomy(b)
    ensures |AppendAll(b, s).str| == |b.str| + |s|
    ensures forall k :: 0 <= k < |b.str| && b.str[k] == 0 ==> AppendAll(b, s).str[k] == 0
    decreases |s|
  {
    if s != [] {
      CopiedIs(b.str);
      var c := AppendChar(b, s[0]);
      assert forall k :: 0 <= k < |b.str| && b.str[k] == 0 ==> c.str[k] == 0;
      ZerosStay(c, s[1..]);
    }
  }

  /** Appending changes nothing exactly if all contents that are copied on the way are harmless. */
  lemma {:induction false} AppendedWhole(b: Buffer, s: seq<Byte>)
    requires Roomy(b)
    ensures AppendAll(b, s).str == b.str + s <==> CopiesHarmless(b, s)
    decreases |s|
  {
    if s != [] {
      var c, t := AppendChar(b, s[0]), b.str + s;
      CopiedWhole(b.str);
      if b.size - |b.str| > 1 || Harmless(b.str) {
        assert c.str + s[1..] == t;
        AppendedWhole(c, s[1..]);
        SameCopies(b, s);
      } else {
        LostForGood(b, s);
        assert t[..|b.str|] == b.str && GrowsAt(b.size, |b.str|);
      }
    } else {
      assert b.str + s == b.str;
    }
  }

  /** What one copy loses does not come back. */
  lemma LostForGood(b: Buffer, s: seq<Byte>)
    requires Roomy(b) && s != [] && b.size - |b.str| <= 1 && !Harmless(b.str)
    ensures AppendAll(b, s).str != b.str + s
  {
    hide CopiesHarmless, GrowsAt;
    var c, t := AppendChar(b, s[0]), b.str + s;
    ZerosStay(c, s[1..]);
    CopiedIs(b.str);
    var i, j :| 0 <= i < j < |b.str| && b.str[i] == 0 && b.str[j] != 0;
    assert b.str[..j][i] == 0;
    assert c.str[j] == 0 && t[j] != 0;
  }

  /** All contents that are copied while s is appended are harmless. */
  ghost predicate CopiesHarmless(b: Buffer, s: seq<Byte>)
    requires Roomy(b)
  {
    forall g: nat {:trigger GrowsAt(b.size, g)} ::
      |b.str| <= g < |b.str| + |s| && GrowsAt(b.size, g) ==> Harmless((b.str + s)[..g])
  }

  lemma SameCopies(b: Buffer, s: seq<Byte>)
    requires Roomy(b) && s != []
    requires b.size - |b.str| > 1 || Harmless(b.str)
    ensures CopiesHarmless(b, s) <==> CopiesHarmless(AppendChar(b, s[0]), s[1..])
  {
    hide Harmless;
    CopiedWhole(b.str);
    var c, t := AppendChar(b, s[0]), b.str + s;
    assert c.str + s[1..] == t && t[..|b.str|] == b.str;
    if CopiesHarmless(b, s) {
      forall g: nat {:trigger GrowsAt(c.size, g)} | |c.str| <= g < |t| && GrowsAt(c.size, g) ensures Harmless(t[..g]) {
        assert GrowsAt(b.size, g);
      }
    }
    if CopiesHarmless(c, s[1..]) {
      forall g: nat {:trigger GrowsAt(b.size, g)} | |b.str| <= g < |t| && GrowsAt(b.size, g) ensures Harmless(t[..g]) {
        assert g > |b.str| ==> GrowsAt(c.size, g);
      }
    }
  }

  /** A string is stored as it is exactly if no NUL comes before another byte among those copied when it grows. */
  lemma StoredWhole(s: seq<Byte>)
    ensures Stored(s) == s <==> CopiesHarmless(EMPTY, s)
  {
    AppendedWhole(EMPTY, s);
    assert EMPTY.str + s == s;
  }

  /** A NUL byte and 63 letters: growing once, the string loses letters. */
  lemma LosesLetters(c: Byte)
    requires c != 0
    ensures Stored([0] + seq(63, _ => c)) != [0] + seq(63, _ => c)
  {
    var s: seq<Byte> := [0] + seq(63, _ => c);
    StoredWhole(s);
    assert GrowsAt(INITIAL_SIZE, 63);
    var t := (EMPTY.str + s)[..63];
    assert t[0] == 0 && t[1] == c;
  }

  /** In particular every string without a NUL is. */
  lemma StoredNulFree(b: Buffer, s: seq<Byte>)
    requires Roomy(b) && 0 !in b.str && 0 !in s
    ensures AppendAll(b, s).str == b.str + s
  {
    AppendedWhole(b, s);
    var t := b.str + s;
    forall g: nat {:trigger GrowsAt(b.size, g)} | |b.str| <= g < |t| && GrowsAt(b.size, g) ensures Harmless(t[..g]) {
      CopiedWhole(t[..g]);
      assert forall x :: x in t[..g] ==> x in t;
    }
  }
}
