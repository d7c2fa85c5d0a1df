/** The drop-oldest policy of `AlsaDeviceSource::queueFrame` as a function on
    values: before a frame is appended, frames are removed from the front
    while the queue holds `depth` or more. */
module FrameQueue {

  /** The depth the RTSP server gives its audio source. */
  const QUEUE_DEPTH: nat := 10

  /** The eviction loop: pop the front while the queue is full. */
  function Evict<T>(q: seq<T>, depth: nat): seq<T>
    requires depth >= 1
    decreases |q|
  {
    if |q| >= depth then Evict(q[1..], depth) else q
  }

  /** `queueFrame`: evict, then append the new frame at the back. */
  function Admit<T>(q: seq<T>, x: T, depth: nat): seq<T>
    requires depth >= 1
  {
    Evict(q, depth) + [x]
  }

  /** Queueing several frames in order. */
  function AdmitAll<T>(q: seq<T>, xs: seq<T>, depth: nat): seq<T>
    requires depth >= 1
  {
    if xs == [] then q else Admit(AdmitAll(q, xs[..|xs| - 1], depth), xs[|xs| - 1], depth)
  }

  /** The newest `k` elements of `s` (all of them when there are fewer). */
  function Newest<T>(s: seq<T>, k: nat): (r: seq<T>)
    ensures |r| == if |s| < k then |s| else k
  {
    if |s| < k then s else s[|s| - k..]
  }

  /** Eviction removes only the oldest frames: what survives is the newest
      `depth - 1` frames, in their original order. */
  lemma {:induction false} EvictKeepsNewest<T>(q: seq<T>, depth: nat)
    requires depth >= 1
    ensures Evict(q, depth) == Newest(q, depth - 1)
    decreases |q|
  {
    if |q| >= depth {
      EvictKeepsNewest(q[1..], depth);
      assert q[1..][|q| - 1 - (depth - 1)..] == q[|q| - (depth - 1)..];
    }
  }

  /** After `queueFrame` the queue holds at most `depth` frames, ends with the
      new frame, and keeps a suffix of the old queue in front of it; a queue
      that had room loses nothing. */
  lemma AdmitDropsOldest<T>(q: seq<T>, x: T, depth: nat)
    requires depth >= 1
    ensures var r := Admit(q, x, depth);
      && 1 <= |r| <= depth
      && r[|r| - 1] == x
      && r[..|r| - 1] == Newest(q, depth - 1)
      && (|q| < depth ==> r == q + [x])
  {
    EvictKeepsNewest(q, depth);
    var r := Admit(q, x, depth);
    assert r[..|r| - 1] == Evict(q, depth);
  }

  /** Keeping the newest `k` of a suffix that is at least `k` long is the
      same as keeping the newest `k` of the whole. */
  lemma NewestOfSuffix<T>(s: seq<T>, j: nat, k: nat)
    requires j <= |s| && k <= |s| - j
    ensures Newest(s[j..], k) == Newest(s, k)
  {
    assert s[j..][|s| - j - k..] == s[|s| - k..];
  }

  /** One more frame on a window that is full: the window slides by one. */
  lemma WindowSlides<T>(u: seq<T>, x: T, depth: nat)
    requires 1 <= depth <= |u|
    ensures Admit(Newest(u, depth), x, depth) == Newest(u + [x], depth)
  {
    var w := Newest(u, depth);
    assert w == u[|u| - depth..];
    EvictKeepsNewest(w, depth);
    NewestOfSuffix(u, |u| - depth, depth - 1);
    var kept := u[|u| - (depth - 1)..];
    assert Evict(w, depth) == kept;
    assert (u + [x])[|u| + 1 - depth..] == kept + [x];
  }

  /** A run of `queueFrame` calls on a queue within its depth leaves the
      newest `depth` frames of the old queue followed by the new ones. */
  lemma {:induction false} AdmitAllKeepsWindow<T>(q: seq<T>, xs: seq<T>, depth: nat)
    requires depth >= 1 && |q| <= depth
    ensures AdmitAll(q, xs, depth) == Newest(q + xs, depth)
  {
    if xs == [] {
      assert q + xs == q;
    } else {
      var init, x := xs[..|xs| - 1], xs[|xs| - 1];
      AdmitAllKeepsWindow(q, init, depth);
      var u := q + init;
      assert q + xs == u + [x];
      if |u| < depth {
        AdmitDropsOldest(u, x, depth);
      } else {
        WindowSlides(u, x, depth);
      }
    }
  }

  /** Fifteen frames queued into an empty queue of the RTSP server's depth:
      the first five are dropped and the last ten survive in order. */
  lemma FifteenIntoDepthTen<T>(frames: seq<T>)
    requires |frames| == 15
    ensures AdmitAll([], frames, QUEUE_DEPTH) == frames[5..]
  {
    AdmitAllKeepsWindow([], frames, QUEUE_DEPTH);
    assert [] + frames == frames;
  }
}
