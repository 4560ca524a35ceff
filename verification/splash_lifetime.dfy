/**
 * How long a splash stays in the active list: repeated `animate` frames
 * over the splash list of script.js, with exact real arithmetic. A splash
 * whose particles have all decayed is still listed, but paints nothing.
 */
module SplashLifetime {
  import opened Wrappers
  import opened PaintSplash

  /** The splash list after `k` frames. */
  function Ticks(splashes: seq<Splash>, k: nat): (r: seq<Splash>)
    ensures |r| <= |splashes|
    decreases k
  {
    if k == 0 then splashes else Ticks(Tick(splashes), k - 1)
  }

  /** Splashes evolve independently: `k` frames over `a + b` are `k` frames over each. */
  lemma {:induction false} TicksAppend(a: seq<Splash>, b: seq<Splash>, k: nat)
    ensures Ticks(a + b, k) == Ticks(a, k) + Ticks(b, k)
    decreases k
  {
    if k > 0 {
      TickAppend(a, b);
      TicksAppend(Tick(a), Tick(b), k - 1);
    }
  }

  /** An empty splash list stays empty, and every frame over it only clears the canvas. */
  lemma {:induction false} IdleFrames(k: nat)
    ensures Ticks([], k) == []
    ensures FrameOps(Ticks([], k)) == [ClearSurface]
    decreases k
  {
    if k > 0 {
      assert Tick([]) == [];
      IdleFrames(k - 1);
    }
  }

  /**
   * A lone splash whose life is (100 - j) / 100 is still present, with
   * life (100 - j - k) / 100 and its origin and colour unchanged, after
   * k frames while j + k < 100, and gone once j + k reaches 100.
   */
  lemma {:induction false} LoneSplashCountdown(s: Splash, j: nat, k: nat)
    requires j < 100 && j + k <= 100
    requires s.life == (100 - j) as real / 100.0
    ensures j + k < 100 ==>
              && |Ticks([s], k)| == 1
              && Ticks([s], k)[0].life == (100 - j - k) as real / 100.0
              && Ticks([s], k)[0].x == s.x && Ticks([s], k)[0].y == s.y
              && Ticks([s], k)[0].color == s.color
    ensures j + k == 100 ==> Ticks([s], k) == []
    decreases k
  {
    if k > 0 {
      assert [s][1..] == [];
      if j + 1 < 100 {
        assert Survives(s);
        assert Tick([s]) == [Advance(s)];
        LoneSplashCountdown(Advance(s), j + 1, k - 1);
      } else {
        assert !Survives(s);
        assert Tick([s]) == [];
        IdleFrames(k - 1);
      }
    }
  }

  /**
   * A freshly created splash (life 1) is present for frames 0..99 with life
   * 1 - k/100, and is removed by frame 100.
   */
  lemma FreshSplashLifetime(s: Splash, k: nat)
    requires s.life == 1.0
    ensures k < 100 ==> |Ticks([s], k)| == 1 && Ticks([s], k)[0].life == 1.0 - k as real / 100.0
    ensures k >= 100 ==> Ticks([s], k) == []
  {
    if k <= 100 {
      LoneSplashCountdown(s, 0, k);
    } else {
      LoneSplashCountdown(s, 0, 100);
      TicksSplit([s], 100, k - 100);
      IdleFrames(k - 100);
    }
  }

  /** Running `m` frames and then `n` more is running `m + n` frames. */
  lemma {:induction false} TicksSplit(splashes: seq<Splash>, m: nat, n: nat)
    ensures Ticks(splashes, m + n) == Ticks(Ticks(splashes, m), n)
    decreases m
  {
    if m > 0 {
      TicksSplit(Tick(splashes), m - 1, n);
    }
  }

  /**
   * A splash emitted into any list is the last element for frames 0..99,
   * with life 1 - k/100 and the colour it was created with, the splashes
   * before it evolve as if it were not there, and after frame 100 it is gone.
   */
  lemma EmittedSplashLifetime(splashes: seq<Splash>, x: real, y: real, color: Option<string>,
                              dirs: seq<Direction>, draws: seq<real>, k: nat)
    requires |dirs| == ParticleCount && |draws| == 2 * ParticleCount
    requires AllRandomDraws(draws)
    ensures var r := Ticks(Emit(splashes, x, y, color, dirs, draws), k);
            k < 100 ==>
              && |r| == |Ticks(splashes, k)| + 1
              && r[..|r| - 1] == Ticks(splashes, k)
              && r[|r| - 1].life == 1.0 - k as real / 100.0
              && r[|r| - 1].color == color.GetOr(DefaultColor)
    ensures k >= 100 ==> Ticks(Emit(splashes, x, y, color, dirs, draws), k) == Ticks(splashes, k)
  {
    var s := CreateSplash(x, y, color, dirs, draws);
    var emitted := Emit(splashes, x, y, color, dirs, draws);
    assert emitted == splashes + [s];
    TicksAppend(splashes, [s], k);
    FreshSplashLifetime(s, k);
    if k < 100 {
      LoneSplashCountdown(s, 0, k);
      var r := Ticks(emitted, k);
      assert r == Ticks(splashes, k) + Ticks([s], k);
      assert r[..|r| - 1] == Ticks(splashes, k);
    } else {
      assert Ticks(splashes, k) + [] == Ticks(splashes, k);
    }
  }
}
