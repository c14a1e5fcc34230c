/** The search for the magic bytes in arbitrary junk. */
module MagicMatcher {
  import opened Bytes
  import opened NamespaceStore
  import opened CommandParser
  import opened Chunking

  predicate EndsWith(s: seq<byte>, t: seq<byte>) {
    |t| <= |s| && s[|s| - |t|..] == t
  }

  /** The length of the longest suffix of s that is a proper prefix of the magic. */
  function PartialMatch(s: seq<byte>): (n: nat)
    ensures n < MAGIC_LEN && EndsWith(s, MAGIC[..n])
    ensures forall m :: n < m < MAGIC_LEN ==> !EndsWith(s, MAGIC[..m])
  {
    if EndsWith(s, MAGIC[..3]) then 3
    else if EndsWith(s, MAGIC[..2]) then 2
    else if EndsWith(s, MAGIC[..1]) then 1
    else 0
  }

  lemma EndsWithSnoc(s: seq<byte>, b: byte, t: seq<byte>, c: byte)
    ensures EndsWith(s + [b], t + [c]) <==> EndsWith(s, t) && b == c
  {
    if |t| <= |s| {
      assert (s + [b])[|s| - |t|..] == s[|s| - |t|..] + [b];
      assert s[|s| - |t|..] + [b] == t + [c] ==> s[|s| - |t|..] == t && b == c by {
        assert (s[|s| - |t|..] + [b])[..|t|] == s[|s| - |t|..];
        assert (t + [c])[..|t|] == t;
        assert (s[|s| - |t|..] + [b])[|t|] == b && (t + [c])[|t|] == c;
      }
    }
  }

  /** A suffix of s that is a non-empty prefix of the magic shows in the last byte. */
  lemma LastByte(s: seq<byte>, n: nat)
    requires 0 < n <= MAGIC_LEN && EndsWith(s, MAGIC[..n])
    ensures s != [] && s[|s| - 1] == MAGIC[n - 1]
  {
    assert s[|s| - 1] == s[|s| - n..][n - 1];
  }

  lemma PrefixSnoc(s: seq<byte>, b: byte, k: nat)
    requires k < MAGIC_LEN
    ensures EndsWith(s + [b], MAGIC[..k + 1]) <==> EndsWith(s, MAGIC[..k]) && b == MAGIC[k]
  {
    EndsWithSnoc(s, b, MAGIC[..k], MAGIC[k]);
    assert MAGIC[..k + 1] == MAGIC[..k] + [MAGIC[k]];
  }

  /** Two different non-empty prefixes of the magic do not both end s. */
  lemma OnePartialMatch(s: seq<byte>, k: nat)
    requires 0 < k < MAGIC_LEN && EndsWith(s, MAGIC[..k])
    ensures PartialMatch(s) == k
  {
    LastByte(s, k);
    LastByte(s, PartialMatch(s));
  }

  /** How one more byte changes the longest partial match: the magic has no proper border,
      so after a mismatch only the byte itself can start a new match. */
  lemma PartialMatchSnoc(s: seq<byte>, b: byte)
    ensures var n := PartialMatch(s);
      && (EndsWith(s + [b], MAGIC) <==> n == 3 && b == MAGIC[3])
      && (!EndsWith(s + [b], MAGIC) ==>
            PartialMatch(s + [b]) == if b == MAGIC[n] then n + 1 else if b == MAGIC[0] then 1 else 0)
  {
    PrefixSnocs(s, b);
    OnePartialMatches(s);
  }

  lemma PrefixSnocs(s: seq<byte>, b: byte)
    ensures EndsWith(s + [b], MAGIC[..1]) <==> b == MAGIC[0]
    ensures EndsWith(s + [b], MAGIC[..2]) <==> EndsWith(s, MAGIC[..1]) && b == MAGIC[1]
    ensures EndsWith(s + [b], MAGIC[..3]) <==> EndsWith(s, MAGIC[..2]) && b == MAGIC[2]
    ensures EndsWith(s + [b], MAGIC) <==> EndsWith(s, MAGIC[..3]) && b == MAGIC[3]
  {
    FirstSnoc(s, b);
    PrefixSnoc(s, b, 1);
    PrefixSnoc(s, b, 2);
    MagicSnoc(s, b);
  }

  lemma FirstSnoc(s: seq<byte>, b: byte)
    ensures EndsWith(s + [b], MAGIC[..1]) <==> b == MAGIC[0]
  {
    PrefixSnoc(s, b, 0);
    assert EndsWith(s, MAGIC[..0]);
  }

  lemma MagicSnoc(s: seq<byte>, b: byte)
    ensures EndsWith(s + [b], MAGIC) <==> EndsWith(s, MAGIC[..3]) && b == MAGIC[3]
  {
    PrefixSnoc(s, b, 3);
    assert MAGIC[..4] == MAGIC;
  }

  lemma OnePartialMatches(s: seq<byte>)
    ensures forall k :: 0 < k < MAGIC_LEN && EndsWith(s, MAGIC[..k]) ==> PartialMatch(s) == k
  {
    forall k | 0 < k < MAGIC_LEN && EndsWith(s, MAGIC[..k])
      ensures PartialMatch(s) == k
    {
      OnePartialMatch(s, k);
    }
  }

  predicate MagicAt(s: seq<byte>, i: nat) {
    i + MAGIC_LEN <= |s| && s[i..i + MAGIC_LEN] == MAGIC
  }

  /** The magic does not occur in s. */
  ghost predicate MagicFree(s: seq<byte>) {
    forall i: nat :: !MagicAt(s, i)
  }

  lemma EndsWithMagic(s: seq<byte>)
    ensures EndsWith(s, MAGIC) <==> |s| >= MAGIC_LEN && MagicAt(s, |s| - MAGIC_LEN)
  {
    if |s| >= MAGIC_LEN {
      assert s[|s| - MAGIC_LEN..] == s[|s| - MAGIC_LEN..|s| - MAGIC_LEN + MAGIC_LEN];
    }
  }

  lemma SliceOfSlice(s: seq<byte>, i: nat, j: nat, k: nat, l: nat)
    requires i <= j <= |s| && k <= l <= j - i
    ensures s[i..j][k..l] == s[i + k..i + l]
  {
    var a, b := s[i..j][k..l], s[i + k..i + l];
    assert |a| == |b|;
    assert forall x :: 0 <= x < |a| ==> a[x] == s[i..j][k + x] == s[i + (k + x)];
  }

  lemma MagicFreePart(s: seq<byte>, i: nat, j: nat)
    requires MagicFree(s) && i <= j <= |s|
    ensures MagicFree(s[i..j])
  {
    forall k: nat
      ensures !MagicAt(s[i..j], k)
    {
      if k + MAGIC_LEN <= j - i {
        SliceOfSlice(s, i, j, k, k + MAGIC_LEN);
        assert !MagicAt(s, i + k);
      }
    }
  }

  /** Magic-free junk leaves the parser in the header state at its longest partial match. */
  lemma {:induction false} ScanJunk(reg: Registry, s: seq<byte>)
    requires MagicFree(s)
    ensures FeedBytes(reg, INITIAL, s) == Result(Header(PartialMatch(s)), [])
    decreases |s|
  {
    if s != [] {
      var n := |s| - 1;
      MagicFreePart(s, 0, n);
      ScanJunk(reg, s[..n]);
      assert s == s[..n] + [s[n]];
      EndsWithMagic(s);
      PartialMatchSnoc(s[..n], s[n]);
      FeedBytesAppend(reg, INITIAL, s[..n], [s[n]]);
      FeedBytesSingle(reg, Header(PartialMatch(s[..n])), s[n]);
    }
  }

  /** The matcher is exact: it reports the magic after s + [b] exactly if that is where
      the first occurrence of the magic ends. */
  lemma {:induction false} FirstMagicIsFound(reg: Registry, s: seq<byte>, b: byte)
    requires MagicFree(s)
    ensures FeedBytes(reg, INITIAL, s + [b]).state == Version <==> EndsWith(s + [b], MAGIC)
    ensures FeedBytes(reg, INITIAL, s + [b]).log == []
  {
    ScanJunk(reg, s);
    PartialMatchSnoc(s, b);
    FeedBytesAppend(reg, INITIAL, s, [b]);
    FeedBytesSingle(reg, Header(PartialMatch(s)), b);
  }

  /** From anywhere in the header, the magic leads to the version byte. */
  lemma {:induction false} MagicFromAnyHeader(reg: Registry, pos: nat)
    requires pos < MAGIC_LEN
    ensures FeedBytes(reg, Header(pos), MAGIC) == Result(Version, [])
  {
    var h1 := ByteStep(reg, Header(pos), 0xF0);
    assert h1 == Result(Header(1), []);
    assert MAGIC[1..] == [0x9E, 0x97, 0x8C];
    assert MAGIC[1..][1..] == [0x97, 0x8C];
    assert MAGIC[1..][1..][1..] == [0x8C];
    assert MAGIC[1..][1..][1..][1..] == [];
    assert FeedBytes(reg, Version, []) == Result(Version, []);
    assert FeedBytes(reg, Header(3), [0x8C]) == Result(Version, []);
    assert FeedBytes(reg, Header(2), [0x97, 0x8C]) == Result(Version, []);
    assert FeedBytes(reg, Header(1), [0x9E, 0x97, 0x8C]) == Result(Version, []);
  }

  /** However the junk ends, the magic after it is found where it stands. */
  lemma {:induction false} JunkThenMagic(reg: Registry, junk: seq<byte>)
    requires MagicFree(junk)
    ensures FeedBytes(reg, INITIAL, junk + MAGIC) == Result(Version, [])
  {
    ScanJunk(reg, junk);
    FeedBytesAppend(reg, INITIAL, junk, MAGIC);
    MagicFromAnyHeader(reg, PartialMatch(junk));
  }

  // --- Clean names --------------------------------------------------------------------

  /** No name is read on the way through magic-free junk, so that its cuts do not matter. */
  lemma {:induction false} JunkIsClean(reg: Registry, s: seq<byte>)
    requires MagicFree(s)
    ensures CleanRun(reg, INITIAL, s)
    decreases |s|
  {
    if s != [] {
      var n := |s| - 1;
      MagicFreePart(s, 0, n);
      JunkIsClean(reg, s[..n]);
      ScanJunk(reg, s[..n]);
      CleanRunAppend(reg, INITIAL, s[..n], [s[n]]);
      assert s == s[..n] + [s[n]];
    }
  }

  lemma EndsWithOfTail(s: seq<byte>, k: nat, t: seq<byte>)
    requires k <= |s|
    ensures EndsWith(s[k..], t) <==> EndsWith(s, t) && |t| <= |s| - k
  {
    if |t| <= |s| - k {
      assert s[k..][|s| - k - |t|..] == s[|s| - |t|..];
    }
  }

  lemma PartialMatchOfTail(s: seq<byte>, k: nat)
    requires k < |s|
    ensures PartialMatch(s[k..]) <= PartialMatch(s)
    ensures PartialMatch(s) <= |s| - k ==> PartialMatch(s[k..]) == PartialMatch(s)
  {
    EndsWithOfTail(s, k, MAGIC[..1]);
    EndsWithOfTail(s, k, MAGIC[..2]);
    EndsWithOfTail(s, k, MAGIC[..3]);
  }

  lemma PartialMatchOfByte(b: byte)
    ensures Restart(b) == Header(PartialMatch([b]))
  {
    PartialMatchSnoc([], b);
    assert [] + [b] == [b];
    assert PartialMatch([]) == 0;
  }

  /** Rescanning the tail of a magic-free name ends at the partial match of that tail. */
  lemma {:induction false} RescanJunk(reg: Registry, name: seq<byte>, k: nat)
    requires MagicFree(name) && k <= |name|
    ensures FeedChunk(reg, INITIAL, name[k..]) == Result(Header(PartialMatch(name[k..])), [])
  {
    MagicFreePart(name, k, |name|);
    assert name[k..] == name[k..|name|];
    JunkIsClean(reg, name[k..]);
    ChunkIsBytes(reg, INITIAL, name[k..]);
    ScanJunk(reg, name[k..]);
  }

  /** A magic-free name is clean exactly if it does not end in F0 9E or F0 9E 97. */
  lemma CleanWithoutMagic(reg: Registry, name: seq<byte>)
    requires MagicFree(name) && name != []
    ensures Clean(reg, name) <==> PartialMatch(name) <= 1
  {
    var last := name[|name| - 1];
    assert name[|name| - 1..] == [last];
    PartialMatchOfByte(last);
    PartialMatchOfTail(name, |name| - 1);
    if PartialMatch(name) <= 1 {
      forall k | 0 <= k < |name|
        ensures FeedChunk(reg, INITIAL, name[k..]) == Result(Restart(last), [])
      {
        RescanJunk(reg, name, k);
        PartialMatchOfTail(name, k);
      }
    } else {
      RescanJunk(reg, name, 0);
      assert name[0..] == name;
    }
  }

  lemma MagicStartsWithF0(s: seq<byte>, i: nat)
    requires MagicAt(s, i)
    ensures s[i] == 0xF0
  {
    assert s[i] == s[i..i + MAGIC_LEN][0];
  }

  lemma PartialMatchStartsWithF0(s: seq<byte>)
    requires PartialMatch(s) > 0
    ensures s[|s| - PartialMatch(s)] == 0xF0
  {
    var n := PartialMatch(s);
    assert s[|s| - n] == s[|s| - n..][0];
  }

  /** In particular a name without the byte F0 is clean. */
  lemma CleanWithoutF0(reg: Registry, name: seq<byte>)
    requires name != [] && 0xF0 !in name
    ensures MagicFree(name) && PartialMatch(name) == 0
    ensures Clean(reg, name)
  {
    forall i: nat
      ensures !MagicAt(name, i)
    {
      if MagicAt(name, i) {
        MagicStartsWithF0(name, i);
        assert false;
      }
    }
    if PartialMatch(name) > 0 {
      PartialMatchStartsWithF0(name);
      assert false;
    }
    CleanWithoutMagic(reg, name);
  }
}
