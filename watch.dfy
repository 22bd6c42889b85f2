/**
  The watch loop (mkdoc.py:27-51). Each iteration looks at the input file's
  modification time; only a save newer than the last one seen leads to hashing
  the content, and only a hash different from the last one leads to a render.
  Both remembered values are updated before the render starts, so a render that
  fails is not tried again until the content changes once more.

  The file system is not modelled: each iteration receives what `os.stat` and
  the file read produced as a `Poll`, with `None` standing for the exception
  either of them raised. `filehash` (mkdoc.py:17-25) is the watcher's `digest`,
  a deterministic function of the file's bytes.
 */
module Watch {
  import opened Wrappers

  newtype Byte = b: int | 0 <= b < 256

  /** A hex digest, as `hexdigest()` returns it. */
  type Digest = seq<char>

  /** What one iteration observes: the modification time and the file's bytes. */
  datatype Poll = Poll(mtime: Option<int>, content: Option<seq<Byte>>)

  /** `(last_update, last_hash)`. */
  datatype State = State(lastUpdate: int, lastHash: Digest)

  /** How one iteration ends. */
  datatype Outcome =
    | StatFailed          // os.stat raised (mkdoc.py:34, 49)
    | Unsaved             // "no save detected." (mkdoc.py:35, 48)
    | HashFailed          // filehash raised after the save was recorded (mkdoc.py:38, 49)
    | Unchanged           // "no changes detected." (mkdoc.py:39, 48)
    | Render(digest: Digest)  // the state is updated and a render is attempted (mkdoc.py:40-47)

  /** The poll shows a save newer than the last one seen. */
  predicate Saved(st: State, p: Poll)
  {
    p.mtime.Some? && p.mtime.value > st.lastUpdate
  }

  /** One iteration of the loop body (mkdoc.py:32-49): the new state and how it ended. */
  function Decide(st: State, digest: seq<Byte> -> Digest, p: Poll): (r: (State, Outcome))
    ensures !Saved(st, p) ==> r.0 == st && !r.1.Render?
    ensures Saved(st, p) ==> r.0.lastUpdate == p.mtime.value
    ensures r.1.Render? <==> Saved(st, p) && p.content.Some? && digest(p.content.value) != st.lastHash
    ensures r.1.Render? ==> r.0.lastHash == r.1.digest == digest(p.content.value)
    ensures !r.1.Render? ==> r.0.lastHash == st.lastHash
  {
    match p.mtime
    case None => (st, StatFailed)
    case Some(updated) =>
      if updated <= st.lastUpdate then (st, Unsaved)
      else
        var st1 := st.(lastUpdate := updated);
        match p.content
        case None => (st1, HashFailed)
        case Some(bytes) =>
          var newHash := digest(bytes);
          if st1.lastHash == newHash then (st1, Unchanged)
          else (st1.(lastHash := newHash), Render(newHash))
  }

  /** The state and outcomes after a sequence of iterations. */
  datatype Trace = Trace(final: State, outcomes: seq<Outcome>)

  /** Iterations run in order, each from the state the previous one left. */
  function Run(st: State, digest: seq<Byte> -> Digest, polls: seq<Poll>): (t: Trace)
    ensures |t.outcomes| == |polls|
  {
    if |polls| == 0 then Trace(st, [])
    else
      var t := Run(st, digest, polls[..|polls| - 1]);
      var d := Decide(t.final, digest, polls[|polls| - 1]);
      Trace(d.0, t.outcomes + [d.1])
  }

  /** The digests rendered, in order. */
  function Rendered(outs: seq<Outcome>): (ds: seq<Digest>)
    ensures |ds| <= |outs|
    ensures (forall i :: 0 <= i < |outs| ==> !outs[i].Render?) <==> ds == []
  {
    if |outs| == 0 then []
    else Rendered(outs[..|outs| - 1]) + (if outs[|outs| - 1].Render? then [outs[|outs| - 1].digest] else [])
  }

  /** The greatest of `m` and the modification times the polls saw: an upper bound that is one of them. */
  function Latest(m: int, polls: seq<Poll>): (r: int)
    ensures r >= m
    ensures forall i :: 0 <= i < |polls| && polls[i].mtime.Some? ==> r >= polls[i].mtime.value
    ensures r == m || exists i :: 0 <= i < |polls| && polls[i].mtime == Some(r)
  {
    if |polls| == 0 then m
    else
      var init := polls[..|polls| - 1];
      var r := Latest(m, init);
      var p := polls[|polls| - 1];
      assert forall i :: 0 <= i < |init| ==> init[i] == polls[i];
      if p.mtime.Some? && p.mtime.value > r then p.mtime.value else r
  }

  /**
    The rendered digests never repeat back to back, the first differs from the
    hash the watcher started with, and the last is the remembered hash: a render
    happens only for content whose digest differs from that of the previous render.
   */
  lemma {:induction false} RenderedChain(st: State, digest: seq<Byte> -> Digest, polls: seq<Poll>)
    ensures var ds := Rendered(Run(st, digest, polls).outcomes);
      (|ds| > 0 ==> ds[0] != st.lastHash) &&
      (forall i :: 0 <= i < |ds| - 1 ==> ds[i] != ds[i + 1]) &&
      Run(st, digest, polls).final.lastHash == (if |ds| == 0 then st.lastHash else ds[|ds| - 1])
  {
    if |polls| > 0 {
      var init := polls[..|polls| - 1];
      var t := Run(st, digest, init);
      RenderedChain(st, digest, init);
      var d := Decide(t.final, digest, polls[|polls| - 1]);
      RenderedSnoc(t.outcomes, d.1);
      var ds0, ds := Rendered(t.outcomes), Rendered(t.outcomes + [d.1]);
      if d.1.Render? {
        assert ds == ds0 + [d.1.digest];
        forall i | 0 <= i < |ds| - 1
          ensures ds[i] != ds[i + 1]
        {
          if i < |ds0| - 1 {
            assert ds[i] == ds0[i] && ds[i + 1] == ds0[i + 1];
          }
        }
      } else {
        assert ds == ds0;
      }
    }
  }

  /** One more outcome adds its digest to the rendered ones when it is a render. */
  lemma RenderedSnoc(outs: seq<Outcome>, o: Outcome)
    ensures Rendered(outs + [o]) == Rendered(outs) + (if o.Render? then [o.digest] else [])
  {
    assert (outs + [o])[..|outs|] == outs;
  }

  /** Content whose digest equals the remembered hash is never rendered, however often it is saved. */
  lemma {:induction false} SameContentNeverRenders(st: State, digest: seq<Byte> -> Digest, polls: seq<Poll>)
    requires forall i :: 0 <= i < |polls| && polls[i].content.Some? ==> digest(polls[i].content.value) == st.lastHash
    ensures Rendered(Run(st, digest, polls).outcomes) == []
    ensures Run(st, digest, polls).final.lastHash == st.lastHash
  {
    if |polls| > 0 {
      var init := polls[..|polls| - 1];
      SameContentNeverRenders(st, digest, init);
      var t := Run(st, digest, init);
      var d := Decide(t.final, digest, polls[|polls| - 1]);
      RenderedSnoc(t.outcomes, d.1);
    }
  }

  /** The remembered modification time is the latest one any poll saw, or the initial one. */
  lemma {:induction false} LastUpdateIsLatest(st: State, digest: seq<Byte> -> Digest, polls: seq<Poll>)
    ensures Run(st, digest, polls).final.lastUpdate == Latest(st.lastUpdate, polls)
  {
    if |polls| > 0 {
      LastUpdateIsLatest(st, digest, polls[..|polls| - 1]);
    }
  }

  /** The watcher's state between iterations (mkdoc.py:29-30). */
  class Watcher {
    var lastUpdate: int
    var lastHash: Digest
    const digest: seq<Byte> -> Digest

    /** The two fields as a state value. */
    function Current(): (st: State)
      reads this
    {
      State(lastUpdate, lastHash)
    }

    /** The initial stat and hash (mkdoc.py:29-30). */
    constructor (mtime: int, content: seq<Byte>, digest: seq<Byte> -> Digest)
      ensures lastUpdate == mtime && lastHash == digest(content) && this.digest == digest
    {
      lastUpdate := mtime;
      lastHash := digest(content);
      this.digest := digest;
    }

    /**
      One iteration of the loop body (mkdoc.py:32-49). `o.Render?` says that a
      render is attempted: the text is read again and `make` runs unless that read raises.
     */
    method Step(p: Poll) returns (o: Outcome)
      modifies this
      ensures (Current(), o) == Decide(old(Current()), digest, p)
    {
      if p.mtime.None? {
        return StatFailed;
      }
      var updated := p.mtime.value;
      if !(updated > lastUpdate) {
        return Unsaved;
      }
      lastUpdate := updated;
      if p.content.None? {
        return HashFailed;
      }
      var newHash := digest(p.content.value);
      if !(lastHash != newHash) {
        return Unchanged;
      }
      lastHash := newHash;
      o := Render(newHash);
    }
  }

  /**
    The loop (mkdoc.py:31-50): one iteration per poll, until shutdown, which the
    end of the sequence stands for.
   */
  method WatchLoop(w: Watcher, polls: seq<Poll>) returns (outs: seq<Outcome>)
    modifies w
    ensures Run(old(w.Current()), w.digest, polls) == Trace(w.Current(), outs)
  {
    ghost var st := w.Current();
    outs := [];
    var i := 0;
    while i < |polls|
      invariant 0 <= i <= |polls|
      invariant Run(st, w.digest, polls[..i]) == Trace(w.Current(), outs)
    {
      var o := w.Step(polls[i]);
      assert polls[..i + 1][..i] == polls[..i];
      outs := outs + [o];
      i := i + 1;
    }
    assert polls[..i] == polls;
  }
}
