/** The health bar of src/ui.rs: a row of heart sprites, each showing two
    hit points as empty, half or full. The heart entities are numbered in
    the order of the bar's children; `atlas` holds their texture-atlas
    indices and `hasAtlas` says which children have a texture atlas at all. */
module Ui {
  import opened Wrappers
  import opened RustInts

  /** Texture-atlas indices of the three heart sprites. */
  const EMPTY_HEART: usize := 39
  const HALF_HEART: usize := 53
  const FULL_HEART: usize := 67

  /** The sprite for a heart when `hp` hit points remain for it and the
      hearts after it: empty below 1, half at exactly 1, full above. */
  function HeartSprite(hp: int): (r: usize)
    ensures r == EMPTY_HEART <==> hp < 1
    ensures r == HALF_HEART <==> hp == 1
    ensures r == FULL_HEART <==> hp > 1
  {
    if hp < 1 then EMPTY_HEART
    else if hp == 1 then HALF_HEART
    else FULL_HEART
  }

  /** Number of hearts `spawn_hud` creates: `0..max_health / 2` with `i8`
      division rounding towards zero, so no hearts for a negative maximum. */
  function HeartCount(maxHealth: i8): (r: nat)
    ensures maxHealth >= 0 ==> 2 * r <= maxHealth <= 2 * r + 1
    ensures maxHealth < 0 ==> r == 0
  {
    var m: int := maxHealth;
    var half := if m >= 0 then m / 2 else -((-m) / 2);
    if half > 0 then half else 0
  }

  /** The hearts of a bar of `n` hearts showing `hp` hit points, in order:
      heart `k` shows what remains after the `k` hearts before it took two
      hit points each. */
  function Bar(hp: int, n: nat): seq<usize> {
    seq(n, k requires 0 <= k => HeartSprite(hp - 2 * k))
  }

  /** The lines of `spawn_hud` that fill the health bar: one empty heart
      per two points of maximum health. */
  method SpawnHealthbar(maxHealth: i8) returns (hearts: seq<usize>)
    ensures |hearts| == HeartCount(maxHealth)
    ensures forall k :: 0 <= k < |hearts| ==> hearts[k] == EMPTY_HEART
  {
    hearts := [];
    for i := 0 to HeartCount(maxHealth)
      invariant |hearts| == i
      invariant forall k :: 0 <= k < i ==> hearts[k] == EMPTY_HEART
    {
      hearts := hearts + [EMPTY_HEART];
    }
  }

  /** A freshly spawned bar is the bar showing no hit points. */
  lemma SpawnedBarIsEmpty(hearts: seq<usize>)
    requires forall k :: 0 <= k < |hearts| ==> hearts[k] == EMPTY_HEART
    ensures hearts == Bar(0, |hearts|)
  {
  }

  /** Hearts never fill up along the bar: a later heart shows no more than
      an earlier one, so after the first empty heart all are empty. */
  lemma BarNonIncreasing(hp: int, n: nat)
    ensures forall i, j :: 0 <= i <= j < n ==> Bar(hp, n)[j] <= Bar(hp, n)[i]
    ensures forall i, j :: 0 <= i <= j < n && Bar(hp, n)[i] == EMPTY_HEART ==> Bar(hp, n)[j] == EMPTY_HEART
  {
  }

  /** At most one heart is half full, and there is one exactly when `hp` is
      odd and lies strictly between 0 and the bar's capacity `2 * n`. */
  lemma AtMostOneHalf(hp: int, n: nat)
    ensures forall i, j :: 0 <= i < n && 0 <= j < n && Bar(hp, n)[i] == HALF_HEART && Bar(hp, n)[j] == HALF_HEART ==> i == j
    ensures (exists i :: 0 <= i < n && Bar(hp, n)[i] == HALF_HEART) <==> (hp % 2 == 1 && 0 < hp < 2 * n)
  {
    var b := Bar(hp, n);
    if hp % 2 == 1 && 0 < hp < 2 * n {
      var i := (hp - 1) / 2;
      assert b[i] == HALF_HEART;
    }
    if exists i :: 0 <= i < n && b[i] == HALF_HEART {
      var i :| 0 <= i < n && b[i] == HALF_HEART;
      assert hp == 2 * i + 1;
    }
  }

  /** Number of occurrences of `v` in `s`. */
  function Count(s: seq<usize>, v: usize): nat {
    if |s| == 0 then 0 else Count(s[..|s| - 1], v) + (if s[|s| - 1] == v then 1 else 0)
  }

  /** With `hp` not negative, the bar shows `hp / 2` full hearts, or all of
      them when `hp` exceeds its capacity. */
  lemma {:induction false} FullHearts(hp: int, n: nat)
    requires hp >= 0
    ensures Count(Bar(hp, n), FULL_HEART) == if hp / 2 < n then hp / 2 else n
  {
    if n > 0 {
      FullHearts(hp, n - 1);
      assert Bar(hp, n)[..n - 1] == Bar(hp, n - 1);
    }
  }

  /** Within the bar's capacity the full hearts are exactly `hp / 2`. */
  lemma FullHeartsInCapacity(hp: int, n: nat)
    requires 0 <= hp <= 2 * n
    ensures Count(Bar(hp, n), FULL_HEART) == hp / 2
  {
    FullHearts(hp, n);
  }

  /** Number of `true` values in `s`. */
  function CountTrue(s: seq<bool>): nat {
    if |s| == 0 then 0 else CountTrue(s[..|s| - 1]) + (if s[|s| - 1] then 1 else 0)
  }

  lemma {:induction false} CountTruePrefix(s: seq<bool>, i: nat)
    requires i <= |s|
    ensures CountTrue(s[..i]) <= CountTrue(s)
    decreases |s|
  {
    if i < |s| {
      assert s[..|s| - 1][..i] == s[..i];
      CountTruePrefix(s[..|s| - 1], i);
    } else {
      assert s[..i] == s;
    }
  }

  /** When every child has a texture atlas, child `i` is the `i`-th heart. */
  lemma {:induction false} AllAtlasedRank(s: seq<bool>, i: nat)
    requires i <= |s| && forall k :: 0 <= k < |s| ==> s[k]
    ensures CountTrue(s[..i]) == i
  {
    if i > 0 {
      assert s[..i][..i - 1] == s[..i - 1];
      AllAtlasedRank(s, i - 1);
    }
  }

  /** `update_hud`: the player's `hp` is spent two points per heart, in the
      order of the bar's children; children without a texture atlas are
      skipped and cost nothing. The counter is an `i8`, so `ok` is false
      when subtracting 2 leaves its range. */
  method UpdateHud(hp: i8, hasAtlas: seq<bool>, atlas: array<usize>) returns (ok: bool)
    requires |hasAtlas| == atlas.Length
    modifies atlas
    ensures ok <==> hp - 2 * CountTrue(hasAtlas) >= I8_MIN
    ensures ok ==> forall i :: 0 <= i < atlas.Length ==>
      atlas[i] == if hasAtlas[i] then HeartSprite(hp - 2 * CountTrue(hasAtlas[..i])) else old(atlas[i])
  {
    var playerHp: i8 := hp;
    for i := 0 to atlas.Length
      invariant playerHp == hp - 2 * CountTrue(hasAtlas[..i])
      invariant forall k :: 0 <= k < i ==>
        atlas[k] == if hasAtlas[k] then HeartSprite(hp - 2 * CountTrue(hasAtlas[..k])) else old(atlas[k])
      invariant forall k :: i <= k < atlas.Length ==> atlas[k] == old(atlas[k])
    {
      assert hasAtlas[..i + 1][..i] == hasAtlas[..i];
      if !hasAtlas[i] {
        continue;
      }
      atlas[i] := HeartSprite(playerHp);
      var next := CheckedSubI8(playerHp, 2);
      if next.None? {
        CountTruePrefix(hasAtlas, i + 1);
        return false;
      }
      playerHp := next.value;
    }
    assert hasAtlas[..atlas.Length] == hasAtlas;
    return true;
  }

  /** With a texture atlas on every child, `update_hud` draws exactly
      `Bar(hp, n)`. */
  lemma UpdateHudDrawsBar(hp: i8, hasAtlas: seq<bool>, atlas: seq<usize>)
    requires |hasAtlas| == |atlas| && forall k :: 0 <= k < |hasAtlas| ==> hasAtlas[k]
    requires forall i :: 0 <= i < |atlas| ==> atlas[i] == HeartSprite(hp - 2 * CountTrue(hasAtlas[..i]))
    ensures atlas == Bar(hp, |atlas|)
  {
    forall i | 0 <= i < |atlas| ensures atlas[i] == Bar(hp, |atlas|)[i] {
      AllAtlasedRank(hasAtlas, i);
    }
  }
}
