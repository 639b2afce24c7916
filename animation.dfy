/** Sprite-frame cycling of src/animation.rs. Each animated entity holds an
    inclusive frame range `AnimationIndices` and a texture-atlas index; the
    entities are numbered, and the atlas indices of all of them form the
    array `atlas`. */
module Animation {
  import opened Wrappers
  import opened RustInts

  /** The inclusive frame range `first..=last` of an animation. */
  datatype AnimationIndices = AnimationIndices(first: usize, last: usize)

  /** The frame range has at least one frame and `last + 1` does not
      overflow. */
  predicate Cyclic(ind: AnimationIndices) {
    ind.first <= ind.last < USIZE_MAX
  }

  /** `first + (index + 1 - first) % (last + 1 - first)` on `usize`, with
      every overflow, underflow and division by zero a panic (`None`). */
  function NextFrame(ind: AnimationIndices, index: usize): (r: Option<usize>)
    ensures r.Some? <==> Cyclic(ind) && index < USIZE_MAX && ind.first <= index + 1
    ensures r.Some? ==> ind.first <= r.value <= ind.last
  {
    if index + 1 > USIZE_MAX then None
    else if index + 1 < ind.first then None
    else if ind.last + 1 > USIZE_MAX then None
    else if ind.last + 1 < ind.first then None
    else if ind.last + 1 - ind.first == 0 then None
    else Some(ind.first + (index + 1 - ind.first) % (ind.last + 1 - ind.first))
  }

  /** `x * m >= m` for a positive multiplier. */
  lemma {:induction false} MulAtLeast(x: nat, m: nat)
    requires x >= 1
    ensures x * m >= m
  {
    if x > 1 {
      MulAtLeast(x - 1, m);
      assert x * m == (x - 1) * m + m;
    }
  }

  /** Quotient and remainder are unique. */
  lemma ModUnique(a: int, m: int, q: int, r: int)
    requires m > 0 && 0 <= r < m && a == q * m + r
    ensures a % m == r
  {
    var q0, r0 := a / m, a % m;
    assert a == q0 * m + r0;
    if q0 < q {
      MulAtLeast(q - q0, m);
    } else if q < q0 {
      MulAtLeast(q0 - q, m);
    }
  }

  /** Inside the range the frame advances by one, and the last frame wraps
      to the first. */
  lemma NextFrameStepOrWrap(ind: AnimationIndices, index: usize)
    requires Cyclic(ind) && ind.first <= index <= ind.last
    ensures index < ind.last ==> NextFrame(ind, index) == Some(index + 1)
    ensures index == ind.last ==> NextFrame(ind, index) == Some(ind.first)
  {
    var m := ind.last + 1 - ind.first;
    if index < ind.last {
      ModUnique(index + 1 - ind.first, m, 0, index + 1 - ind.first);
    } else {
      ModUnique(index + 1 - ind.first, m, 1, 0);
    }
  }

  /** A one-frame animation (such as an idle `0..=0`) stays put. */
  lemma SingleFrameFixed(ind: AnimationIndices)
    requires ind.first == ind.last < USIZE_MAX
    ensures NextFrame(ind, ind.first) == Some(ind.first)
  {
    NextFrameStepOrWrap(ind, ind.first);
  }

  /** An index below `first - 1` makes `index + 1 - first` underflow. */
  lemma BelowRangePanics(ind: AnimationIndices, index: usize)
    requires index + 1 < ind.first
    ensures NextFrame(ind, index).None?
  {
  }

  /** The frame after `k` timer expiries. */
  function Advance(ind: AnimationIndices, index: usize, k: nat): Option<usize> {
    if k == 0 then Some(index)
    else match Advance(ind, index, k - 1)
      case None => None
      case Some(j) => NextFrame(ind, j)
  }

  lemma ModSucc(a: nat, m: nat)
    requires m > 0
    ensures (a % m + 1) % m == (a + 1) % m
  {
    var q, r := a / m, a % m;
    assert a == q * m + r;
    if r + 1 < m {
      ModUnique(r + 1, m, 0, r + 1);
      ModUnique(a + 1, m, q, r + 1);
    } else {
      ModUnique(r + 1, m, 1, 0);
      assert a + 1 == (q + 1) * m;
      ModUnique(a + 1, m, q + 1, 0);
    }
  }

  /** The frame `a` steps round the cycle from `first`. */
  function Round(ind: AnimationIndices, a: nat): usize
    requires Cyclic(ind)
  {
    ind.first + a % (ind.last + 1 - ind.first)
  }

  /** One expiry from the frame `a` steps round the cycle is the frame
      `a + 1` steps round it. */
  lemma NextFrameRound(ind: AnimationIndices, a: nat)
    requires Cyclic(ind)
    ensures NextFrame(ind, Round(ind, a)) == Some(Round(ind, a + 1))
  {
    var m := ind.last + 1 - ind.first;
    var r := a % m;
    NextFrameStepOrWrap(ind, ind.first + r);
    ModSucc(a, m);
    if r + 1 < m {
      ModUnique(r + 1, m, 0, r + 1);
    } else {
      ModUnique(r + 1, m, 1, 0);
    }
  }

  /** After `k` expiries from a frame inside the range the animation is
      `k` frames further on, counting round the cycle:
      `first + (index - first + k) % (last + 1 - first)`. */
  lemma {:induction false} AdvanceCycles(ind: AnimationIndices, index: usize, k: nat)
    requires Cyclic(ind) && ind.first <= index <= ind.last
    ensures Advance(ind, index, k) == Some(Round(ind, index - ind.first + k))
  {
    var a: nat := index - ind.first;
    if k == 0 {
      ModUnique(a, ind.last + 1 - ind.first, 0, a);
    } else {
      AdvanceCycles(ind, index, k - 1);
      NextFrameRound(ind, a + (k - 1));
    }
  }

  /** An animation of `n` frames returns to the frame it started on after
      `n` timer expiries, and no panic happens on the way. */
  lemma CycleReturns(ind: AnimationIndices, index: usize)
    requires Cyclic(ind) && ind.first <= index <= ind.last
    ensures Advance(ind, index, ind.last + 1 - ind.first) == Some(index)
  {
    var m := ind.last + 1 - ind.first;
    AdvanceCycles(ind, index, m);
    ModUnique(index - ind.first + m, m, 1, index - ind.first);
    assert Round(ind, index - ind.first + m) == index;
  }

  /** `adjust_sprite_indices`: every entity whose `AnimationIndices`
      changed restarts at its first frame; the others keep their index. */
  method AdjustSpriteIndices(indices: seq<AnimationIndices>, changed: seq<bool>, atlas: array<usize>)
    requires |indices| == atlas.Length && |changed| == atlas.Length
    modifies atlas
    ensures forall i :: 0 <= i < atlas.Length ==>
      atlas[i] == if changed[i] then indices[i].first else old(atlas[i])
  {
    for i := 0 to atlas.Length
      invariant forall k :: 0 <= k < i ==> atlas[k] == if changed[k] then indices[k].first else old(atlas[k])
      invariant forall k :: i <= k < atlas.Length ==> atlas[k] == old(atlas[k])
    {
      if changed[i] {
        atlas[i] := indices[i].first;
      }
    }
  }

  /** The new index of one entity in `animate_sprites`: unchanged unless
      its timer has just finished, otherwise the next frame. */
  function Animate(ind: AnimationIndices, justFinished: bool, index: usize): Option<usize> {
    if justFinished then NextFrame(ind, index) else Some(index)
  }

  /** No entity's frame computation panics. */
  predicate AnimateOk(indices: seq<AnimationIndices>, justFinished: seq<bool>, frames: seq<usize>)
    requires |indices| == |frames| && |justFinished| == |frames|
  {
    forall i :: 0 <= i < |frames| ==> Animate(indices[i], justFinished[i], frames[i]).Some?
  }

  /** `animate_sprites` with the timer ticks given as `justFinished`: each
      entity's index is advanced by `Animate`. `ok` is false when one of
      the computations panics. */
  method AnimateSprites(indices: seq<AnimationIndices>, justFinished: seq<bool>, atlas: array<usize>)
    returns (ok: bool)
    requires |indices| == atlas.Length && |justFinished| == atlas.Length
    modifies atlas
    ensures ok <==> AnimateOk(indices, justFinished, old(atlas[..]))
    ensures ok ==> forall i :: 0 <= i < atlas.Length ==>
      Animate(indices[i], justFinished[i], old(atlas[i])) == Some(atlas[i])
  {
    for i := 0 to atlas.Length
      invariant forall k :: 0 <= k < i ==>
        Animate(indices[k], justFinished[k], old(atlas[k])) == Some(atlas[k])
      invariant forall k :: i <= k < atlas.Length ==> atlas[k] == old(atlas[k])
    {
      if justFinished[i] {
        var next := NextFrame(indices[i], atlas[i]);
        if next.None? {
          return false;
        }
        atlas[i] := next.value;
      }
    }
    return true;
  }

  /** Entities whose frames are inside their cyclic ranges never panic and
      stay inside their ranges. */
  lemma AnimateKeepsInRange(indices: seq<AnimationIndices>, justFinished: seq<bool>, frames: seq<usize>)
    requires |indices| == |frames| && |justFinished| == |frames|
    requires forall i :: 0 <= i < |frames| ==>
      Cyclic(indices[i]) && indices[i].first <= frames[i] <= indices[i].last
    ensures AnimateOk(indices, justFinished, frames)
    ensures forall i :: 0 <= i < |frames| ==>
      indices[i].first <= Animate(indices[i], justFinished[i], frames[i]).value <= indices[i].last
  {
  }
}
