/** How the cut of a byte stream into chunks affects the parser. */
module Chunking {
  import opened Bytes
  import opened NamespaceStore
  import opened CommandParser

  // --- Cuts outside a name -------------------------------------------------------

  predicate InMiddleOfName(st: State) {
    st.Name? && st.buf != []
  }

  /** A cut at which the parser is not in the middle of a name never matters. */
  lemma {:induction false} CutOutsideName(reg: Registry, st: State, s: seq<byte>, t: seq<byte>)
    requires Valid(reg, st)
    requires !InMiddleOfName(FeedChunk(reg, st, s).state)
    ensures var one := FeedChunk(reg, st, s);
      FeedChunk(reg, st, s + t) == FeedChunk(reg, one.state, t).After(one.log)
    decreases |s|
  {
    if s == [] {
      assert s + t == t;
      FeedChunk(reg, st, t).AfterNothing();
    } else if st.Name? {
      var required := st.len - |st.buf|;
      assert (s + t)[..required] == s[..required];
      assert (s + t)[required..] == s[required..] + t;
      assert (s + t)[1..] == s[1..] + t;
      match Resolve(reg, st.buf + s[..required])
      case Some(ns) => CutOutsideName(reg, CommandId(ns), s[required..], t);
      case None => CutOutsideName(reg, Restart(s[0]), s[1..], t);
    } else {
      var first := ByteStep(reg, st, s[0]);
      assert (s + t)[1..] == s[1..] + t;
      CutOutsideName(reg, first.state, s[1..], t);
      var mid := FeedChunk(reg, first.state, s[1..]);
      FeedChunk(reg, mid.state, t).AfterTwice(first.log, mid.log);
    }
  }

  /** Restarting on a byte is scanning it from the initial state. */
  lemma {:induction false} RestartIsScan(reg: Registry, s: seq<byte>)
    requires s != []
    ensures FeedChunk(reg, INITIAL, s) == FeedChunk(reg, Restart(s[0]), s[1..])
  {
    FeedChunk(reg, Restart(s[0]), s[1..]).AfterNothing();
  }

  // --- Unknown names ---------------------------------------------------------------

  /** Rescanning any tail of the unknown name leads where restarting on its last byte leads. */
  predicate Clean(reg: Registry, name: seq<byte>) {
    forall k :: 0 <= k < |name| ==>
      FeedChunk(reg, INITIAL, name[k..]) == Result(Restart(name[|name| - 1]), [])
  }

  /** If this byte completes an unknown name, that name is clean. */
  predicate StepClean(reg: Registry, st: State, b: byte) {
    st.Name? && |st.buf| + 1 == st.len && Resolve(reg, st.buf + [b]).None? ==> Clean(reg, st.buf + [b])
  }

  /** Every unknown name that the byte-wise parser completes on s is clean. */
  predicate CleanRun(reg: Registry, st: State, s: seq<byte>)
    requires Valid(reg, st)
    decreases |s|
  {
    s == [] || (StepClean(reg, st, s[0]) && CleanRun(reg, ByteStep(reg, st, s[0]).state, s[1..]))
  }

  lemma {:induction false} CleanRunAppend(reg: Registry, st: State, s: seq<byte>, t: seq<byte>)
    requires Valid(reg, st)
    ensures CleanRun(reg, st, s + t) <==> CleanRun(reg, st, s) && CleanRun(reg, FeedBytes(reg, st, s).state, t)
    decreases |s|
  {
    if s == [] {
      assert s + t == t;
    } else {
      assert (s + t)[1..] == s[1..] + t;
      CleanRunAppend(reg, ByteStep(reg, st, s[0]).state, s[1..], t);
    }
  }

  lemma {:induction false} CleanRunCompletes(reg: Registry, len: nat, buf: seq<byte>, s: seq<byte>)
    requires |buf| < len < 256 && |buf| + |s| == len
    requires CleanRun(reg, Name(len, buf), s)
    ensures Resolve(reg, buf + s).None? ==> Clean(reg, buf + s)
  {
    var n := |s| - 1;
    assert s == s[..n] + [s[n]];
    CleanRunAppend(reg, Name(len, buf), s[..n], [s[n]]);
    FeedBytesFillsName(reg, len, buf, s[..n]);
    assert (buf + s[..n]) + [s[n]] == buf + s;
  }

  /** One chunk is parsed as its bytes one by one, if the unknown names in it are clean. */
  lemma {:induction false} ChunkIsBytes(reg: Registry, st: State, s: seq<byte>)
    requires Valid(reg, st) && CleanRun(reg, st, s)
    ensures FeedChunk(reg, st, s) == FeedBytes(reg, st, s)
    decreases |s|
  {
    if s == [] {
    } else if st.Name? {
      var required := st.len - |st.buf|;
      if |s| < required {
        FeedBytesFillsName(reg, st.len, st.buf, s);
      } else {
        assert s == s[..required] + s[required..];
        ChunkWithWholeName(reg, st.len, st.buf, s[..required], s[required..]);
      }
    } else {
      ChunkIsBytes(reg, ByteStep(reg, st, s[0]).state, s[1..]);
    }
  }

  lemma {:induction false} ChunkWithWholeName(reg: Registry, len: nat, buf: seq<byte>, w: seq<byte>, t: seq<byte>)
    requires |buf| < len < 256 && |buf| + |w| == len
    requires CleanRun(reg, Name(len, buf), w + t)
    ensures FeedChunk(reg, Name(len, buf), w + t) == FeedBytes(reg, Name(len, buf), w + t)
    decreases |w| + |t|, 0
  {
    var st, name, last := Name(len, buf), buf + w, w[|w| - 1];
    CleanRunAppend(reg, st, w, t);
    CleanRunCompletes(reg, len, buf, w);
    FeedBytesCompletesName(reg, len, buf, w);
    FeedBytesAppend(reg, st, w, t);
    ChunkIsBytes(reg, Named(reg, name, last), t);
    FeedBytes(reg, Named(reg, name, last), t).AfterNothing();
    assert (w + t)[..|w|] == w && (w + t)[|w|..] == t;
    if Resolve(reg, name).None? {
      RestartIsScan(reg, w + t);
      assert name[|buf|..] == w;
      CutOutsideName(reg, INITIAL, w, t);
      FeedChunk(reg, Restart(last), t).AfterNothing();
    }
  }

  /** Any cut of a clean stream into chunks is parsed as the bytes of the stream. */
  lemma {:induction false} ChunksAreBytes(reg: Registry, st: State, chunks: seq<seq<byte>>)
    requires Valid(reg, st) && CleanRun(reg, st, Concat(chunks))
    ensures FeedChunks(reg, st, chunks) == FeedBytes(reg, st, Concat(chunks))
    decreases |chunks|
  {
    if chunks != [] {
      CleanRunAppend(reg, st, chunks[0], Concat(chunks[1..]));
      ChunkIsBytes(reg, st, chunks[0]);
      ChunksAreBytes(reg, FeedChunk(reg, st, chunks[0]).state, chunks[1..]);
      FeedBytesAppend(reg, st, chunks[0], Concat(chunks[1..]));
    }
  }

  // --- One byte per chunk -----------------------------------------------------------

  lemma {:induction false} ByteChunkIsByte(reg: Registry, st: State, b: byte)
    requires Valid(reg, st)
    ensures FeedChunk(reg, st, [b]) == ByteStep(reg, st, b)
  {
    if st.Name? {
      if |st.buf| + 1 == st.len {
        assert [b][..1] == [b] && [b][1..] == [];
      }
    } else {
      var one := ByteStep(reg, st, b);
      assert FeedChunk(reg, one.state, [b][1..]) == Result(one.state, []);
      assert one.log + [] == one.log;
    }
  }

  /** Fed one byte at a time, the parser is the byte-wise parser, whatever the stream. */
  lemma {:induction false} ByteChunksAreBytes(reg: Registry, st: State, s: seq<byte>)
    requires Valid(reg, st)
    ensures FeedChunks(reg, st, Singles(s)) == FeedBytes(reg, st, s)
    decreases |s|
  {
    if s != [] {
      ByteChunkIsByte(reg, st, s[0]);
      ByteChunksAreBytes(reg, ByteStep(reg, st, s[0]).state, s[1..]);
      assert Singles(s)[1..] == Singles(s[1..]);
    }
  }

  // --- When cuts do matter ------------------------------------------------------------

  /** While the parser is collecting a name, the bytes just read are the name so far, and
      before them it had collected none of it. */
  lemma {:induction false} NameStart(reg: Registry, s: seq<byte>) returns (m: nat)
    requires FeedBytes(reg, INITIAL, s).state.Name?
    ensures var st := FeedBytes(reg, INITIAL, s).state;
      m <= |s| && s[m..] == st.buf && FeedBytes(reg, INITIAL, s[..m]).state == Name(st.len, [])
    decreases |s|
  {
    var n := |s| - 1;
    var before := FeedBytes(reg, INITIAL, s[..n]).state;
    assert s == s[..n] + [s[n]];
    FeedBytesAppend(reg, INITIAL, s[..n], [s[n]]);
    FeedBytesSingle(reg, before, s[n]);
    if before.Name? {
      m := NameStart(reg, s[..n]);
      assert s[..n][..m] == s[..m];
      assert s[m..] == s[..n][m..] + [s[n]];
    } else {
      m := |s|;
      assert s[..m] == s;
    }
  }

  lemma {:induction false} NameIsTail(reg: Registry, s: seq<byte>, k: nat)
    requires FeedBytes(reg, INITIAL, s).state.Name?
    requires k <= |FeedBytes(reg, INITIAL, s).state.buf|
    ensures var st := FeedBytes(reg, INITIAL, s).state;
      && |st.buf| <= |s|
      && s[|s| - |st.buf|..] == st.buf
      && FeedBytes(reg, INITIAL, s[..|s| - |st.buf| + k]).state == Name(st.len, st.buf[..k])
  {
    var st := FeedBytes(reg, INITIAL, s).state;
    var m := NameStart(reg, s);
    assert m == |s| - |st.buf|;
    assert s[..m + k] == s[..m] + st.buf[..k];
    NamePart(reg, s[..m], st.len, st.buf[..k]);
  }

  lemma {:induction false} NamePart(reg: Registry, s: seq<byte>, len: nat, buf: seq<byte>)
    requires |buf| < len < 256 && FeedBytes(reg, INITIAL, s).state == Name(len, [])
    ensures FeedBytes(reg, INITIAL, s + buf).state == Name(len, buf)
  {
    FeedBytesAppend(reg, INITIAL, s, buf);
    FeedBytesFillsName(reg, len, [], buf);
    assert [] + buf == buf;
  }

  /** The last bytes of an unclean unknown name, in one chunk and one by one. */
  lemma {:induction false} RescanDiffers(reg: Registry, len: nat, buf: seq<byte>, w: seq<byte>)
    requires |buf| < len < 256 && |buf| + |w| == len
    requires Resolve(reg, buf + w).None?
    requires FeedChunk(reg, INITIAL, w) != Result(Restart(w[|w| - 1]), [])
    ensures FeedChunk(reg, Name(len, buf), w) != FeedBytes(reg, Name(len, buf), w)
  {
    assert w[..|w|] == w;
    RestartIsScan(reg, w);
    FeedBytesCompletesName(reg, len, buf, w);
  }

  /** Different results stay different after the same earlier dispatches. */
  lemma AfterIsInjective(a: Result, b: Result, earlier: seq<Dispatch>)
    requires a != b
    ensures a.After(earlier) != b.After(earlier)
  {
    assert (earlier + a.log)[|earlier|..] == a.log;
    assert (earlier + b.log)[|earlier|..] == b.log;
  }

  /** An unclean unknown name: a cut whose result is not that of the bytes one by one. */
  lemma UncleanNameDiverges(reg: Registry, s: seq<byte>, b: byte) returns (chunks: seq<seq<byte>>)
    requires !StepClean(reg, FeedBytes(reg, INITIAL, s).state, b)
    ensures Concat(chunks) == s + [b]
    ensures forall c :: c in chunks ==> |c| < CHUNK_SIZE
    ensures FeedChunks(reg, INITIAL, chunks) != FeedBytes(reg, INITIAL, s + [b])
  {
    var st := FeedBytes(reg, INITIAL, s).state;
    var name := st.buf + [b];
    var k := UncleanTail(reg, name);
    var i := CutInName(reg, s, b, k);
    chunks := Singles(s[..i]) + [name[k..]];
    CutBefore(reg, s[..i], name[k..], st.len, st.buf[..k]);
  }

  /** The index of the stream at which the first k bytes of a name have been read. */
  lemma {:induction false} CutInName(reg: Registry, s: seq<byte>, b: byte, k: nat) returns (i: nat)
    requires FeedBytes(reg, INITIAL, s).state.Name?
    requires k <= |FeedBytes(reg, INITIAL, s).state.buf|
    ensures var st := FeedBytes(reg, INITIAL, s).state;
      var name := st.buf + [b];
      && i <= |s| && FeedBytes(reg, INITIAL, s[..i]).state == Name(st.len, st.buf[..k])
      && s[..i] + name[k..] == s + [b] && st.buf[..k] + name[k..] == name
  {
    var st := FeedBytes(reg, INITIAL, s).state;
    NameIsTail(reg, s, k);
    SplitName(s, st.buf, b, k);
    i := |s| - |st.buf| + k;
  }

  lemma SplitName(s: seq<byte>, buf: seq<byte>, b: byte, k: nat)
    requires |buf| <= |s| && s[|s| - |buf|..] == buf && k <= |buf|
    ensures s[..|s| - |buf| + k] + (buf + [b])[k..] == s + [b]
    ensures buf[..k] + (buf + [b])[k..] == buf + [b]
  {
    assert (buf + [b])[k..] == buf[k..] + [b];
    assert s == s[..|s| - |buf| + k] + buf[k..];
    assert buf == buf[..k] + buf[k..];
  }

  lemma UncleanTail(reg: Registry, name: seq<byte>) returns (k: nat)
    requires !Clean(reg, name)
    ensures k < |name|
    ensures FeedChunk(reg, INITIAL, name[k..]) != Result(Restart(name[|name| - 1]), [])
  {
    k :| 0 <= k < |name| && FeedChunk(reg, INITIAL, name[k..]) != Result(Restart(name[|name| - 1]), []);
  }

  lemma {:induction false} CutBefore(reg: Registry, s: seq<byte>, w: seq<byte>, len: nat, buf: seq<byte>)
    requires |buf| < len < 256 && |buf| + |w| == len
    requires FeedBytes(reg, INITIAL, s).state == Name(len, buf)
    requires Resolve(reg, buf + w).None?
    requires FeedChunk(reg, INITIAL, w) != Result(Restart(w[|w| - 1]), [])
    ensures Concat(Singles(s) + [w]) == s + w
    ensures FeedChunks(reg, INITIAL, Singles(s) + [w]) != FeedBytes(reg, INITIAL, s + w)
  {
    ConcatSnoc(Singles(s), w);
    ConcatSingles(s);
    ByteChunksAreBytes(reg, INITIAL, s);
    FeedChunksSnoc(reg, INITIAL, Singles(s), w);
    FeedBytesAppend(reg, INITIAL, s, w);
    RescanDiffers(reg, len, buf, w);
    AfterIsInjective(FeedChunk(reg, Name(len, buf), w), FeedBytes(reg, Name(len, buf), w),
                     FeedBytes(reg, INITIAL, s).log);
  }

  lemma {:induction false} FirstUnclean(reg: Registry, st: State, s: seq<byte>) returns (n: nat)
    requires Valid(reg, st) && !CleanRun(reg, st, s)
    ensures n < |s| && !StepClean(reg, FeedBytes(reg, st, s[..n]).state, s[n])
    decreases |s|
  {
    if !StepClean(reg, st, s[0]) {
      n := 0;
    } else {
      var m := FirstUnclean(reg, ByteStep(reg, st, s[0]).state, s[1..]);
      n := m + 1;
      assert s[..n][1..] == s[1..][..m];
    }
  }

  /** However a connection's stream is cut into admissible chunks, at every moment the
      parser has made the same dispatches and is in the same state as the byte-wise one. */
  ghost predicate CutsDoNotMatter(reg: Registry, s: seq<byte>) {
    forall n, chunks: seq<seq<byte>> ::
      0 <= n <= |s| && Concat(chunks) == s[..n] && Admissible(reg, INITIAL, chunks) ==>
        HandleChunks(reg, INITIAL, chunks) == Done(FeedBytes(reg, INITIAL, s[..n]))
  }

  /** Chunking invariance, with its exact condition. */
  lemma {:induction false} ChunkingInvariance(reg: Registry, s: seq<byte>)
    ensures CutsDoNotMatter(reg, s) <==> CleanRun(reg, INITIAL, s)
  {
    if CleanRun(reg, INITIAL, s) {
      forall n, chunks: seq<seq<byte>> | 0 <= n <= |s| && Concat(chunks) == s[..n] && Admissible(reg, INITIAL, chunks)
        ensures HandleChunks(reg, INITIAL, chunks) == Done(FeedBytes(reg, INITIAL, s[..n]))
      {
        CleanCut(reg, s, n, chunks);
      }
    } else {
      var n := FirstUnclean(reg, INITIAL, s);
      var chunks := UncleanCut(reg, s[..n], s[n]);
      assert s[..n] + [s[n]] == s[..n + 1];
      assert HandleChunks(reg, INITIAL, chunks) != Done(FeedBytes(reg, INITIAL, s[..n + 1]));
    }
  }

  lemma {:induction false} CleanCut(reg: Registry, s: seq<byte>, n: nat, chunks: seq<seq<byte>>)
    requires CleanRun(reg, INITIAL, s)
    requires n <= |s| && Concat(chunks) == s[..n] && Admissible(reg, INITIAL, chunks)
    ensures HandleChunks(reg, INITIAL, chunks) == Done(FeedBytes(reg, INITIAL, s[..n]))
  {
    AdmissibleIsDone(reg, INITIAL, chunks);
    assert s == s[..n] + s[n..];
    CleanRunAppend(reg, INITIAL, s[..n], s[n..]);
    ChunksAreBytes(reg, INITIAL, chunks);
  }

  lemma UncleanCut(reg: Registry, s: seq<byte>, b: byte) returns (chunks: seq<seq<byte>>)
    requires !StepClean(reg, FeedBytes(reg, INITIAL, s).state, b)
    ensures Concat(chunks) == s + [b] && Admissible(reg, INITIAL, chunks)
    ensures HandleChunks(reg, INITIAL, chunks) != Done(FeedBytes(reg, INITIAL, s + [b]))
  {
    chunks := UncleanNameDiverges(reg, s, b);
    SmallChunksAreAdmissible(reg, INITIAL, chunks);
    AdmissibleIsDone(reg, INITIAL, chunks);
  }
}
