/** The collision pass of `update` (Game/src/App.jsx, lines 86-98): for each bullet
    index bi, for each bubble index bubi, a hit adds a point and splices the bubble
    at bubi and the bullet at bi out of their arrays, while both loops carry on. The
    recursion below follows that loop exactly: a `forEach` over an array that only
    shrinks visits index i while i is below the current length; the bullet bound at
    the start of an outer iteration stays the same value after it has been spliced
    out, so it can score again, each further hit splicing whatever now sits at bi. */
module Collision {
  import opened Sequences
  import opened Entities

  /** The two arrays and the score while the pass runs. */
  datatype Sweep = Sweep(bullets: seq<Bullet>, bubbles: seq<Bubble>, score: nat)

  /** The inner loop, from bubble index j on, for `bullet` read at outer index bi. */
  function SweepBubbles(bullet: Bullet, bi: nat, s: Sweep, j: nat): (r: Sweep)
    ensures |r.bubbles| + r.score == |s.bubbles| + s.score
    ensures |r.bullets| <= |s.bullets|
    ensures |s.bullets| - |r.bullets| <= r.score - s.score
    ensures bi < |s.bullets| && s.score < r.score ==> |r.bullets| < |s.bullets|
    decreases |s.bubbles| - j
  {
    if j < |s.bubbles| then
      var next :=
        if Hits(bullet, s.bubbles[j])
        then Sweep(RemoveAt(s.bullets, bi), RemoveAt(s.bubbles, j), s.score + 1)
        else s;
      SweepBubbles(bullet, bi, next, j + 1)
    else
      s
  }

  /** The outer loop, from bullet index bi on. */
  function SweepBullets(s: Sweep, bi: nat): (r: Sweep)
    ensures |r.bubbles| + r.score == |s.bubbles| + s.score
    ensures |r.bullets| <= |s.bullets|
    ensures |s.bullets| - |r.bullets| <= r.score - s.score
    ensures s.score < r.score ==> |r.bullets| < |s.bullets|
    decreases |s.bullets| - bi
  {
    if bi < |s.bullets| then
      SweepBullets(SweepBubbles(s.bullets[bi], bi, s, 0), bi + 1)
    else
      s
  }

  /** The whole pass. Each point scored removes one bubble; k points remove
      between 1 and k bullets. */
  function Collide(s: Sweep): (r: Sweep)
    ensures s.score <= r.score
    ensures r.score - s.score == |s.bubbles| - |r.bubbles|
    ensures |s.bullets| - |r.bullets| <= r.score - s.score
    ensures s.score < r.score ==> |r.bullets| < |s.bullets|
  {
    SweepBullets(s, 0)
  }

  /** No bullet's base midpoint lies strictly inside any bubble. */
  predicate NoHits(bullets: seq<Bullet>, bubbles: seq<Bubble>) {
    forall i, j :: 0 <= i < |bullets| && 0 <= j < |bubbles| ==> !Hits(bullets[i], bubbles[j])
  }

  // ---------------------------------------------------------------- order

  lemma {:induction false} SweepBubblesKeepsOrder(bullet: Bullet, bi: nat, s: Sweep, j: nat)
    ensures SubsequenceOf(SweepBubbles(bullet, bi, s, j).bullets, s.bullets)
    ensures SubsequenceOf(SweepBubbles(bullet, bi, s, j).bubbles, s.bubbles)
    decreases |s.bubbles| - j
  {
    if j < |s.bubbles| {
      var next :=
        if Hits(bullet, s.bubbles[j])
        then Sweep(RemoveAt(s.bullets, bi), RemoveAt(s.bubbles, j), s.score + 1)
        else s;
      var r := SweepBubbles(bullet, bi, next, j + 1);
      SweepBubblesKeepsOrder(bullet, bi, next, j + 1);
      if Hits(bullet, s.bubbles[j]) {
        RemoveAtSubsequence(s.bullets, bi);
        RemoveAtSubsequence(s.bubbles, j);
        SubsequenceTransitive(r.bullets, next.bullets, s.bullets);
        SubsequenceTransitive(r.bubbles, next.bubbles, s.bubbles);
      }
    } else {
      SubsequenceReflexive(s.bullets);
      SubsequenceReflexive(s.bubbles);
    }
  }

  lemma {:induction false} SweepBulletsKeepsOrder(s: Sweep, bi: nat)
    ensures SubsequenceOf(SweepBullets(s, bi).bullets, s.bullets)
    ensures SubsequenceOf(SweepBullets(s, bi).bubbles, s.bubbles)
    decreases |s.bullets| - bi
  {
    if bi < |s.bullets| {
      var t := SweepBubbles(s.bullets[bi], bi, s, 0);
      var r := SweepBullets(t, bi + 1);
      SweepBubblesKeepsOrder(s.bullets[bi], bi, s, 0);
      SweepBulletsKeepsOrder(t, bi + 1);
      SubsequenceTransitive(r.bullets, t.bullets, s.bullets);
      SubsequenceTransitive(r.bubbles, t.bubbles, s.bubbles);
    } else {
      SubsequenceReflexive(s.bullets);
      SubsequenceReflexive(s.bubbles);
    }
  }

  /** The bullets and bubbles that survive the pass keep their relative order. */
  lemma CollideKeepsOrder(s: Sweep)
    ensures SubsequenceOf(Collide(s).bullets, s.bullets)
    ensures SubsequenceOf(Collide(s).bubbles, s.bubbles)
    ensures forall u :: u in Collide(s).bubbles ==> u in s.bubbles
  {
    SweepBulletsKeepsOrder(s, 0);
    SubsequenceMembers(Collide(s).bubbles, s.bubbles);
  }

  // ---------------------------------------------------------------- scoring

  /** The inner loop scores nothing exactly when no remaining bubble is hit by the
      bullet, and then it changes nothing. */
  lemma {:induction false} SweepBubblesQuiet(bullet: Bullet, bi: nat, s: Sweep, j: nat)
    ensures SweepBubbles(bullet, bi, s, j).score == s.score <==>
              forall k :: j <= k < |s.bubbles| ==> !Hits(bullet, s.bubbles[k])
    ensures SweepBubbles(bullet, bi, s, j).score == s.score ==> SweepBubbles(bullet, bi, s, j) == s
    decreases |s.bubbles| - j
  {
    if j < |s.bubbles| && !Hits(bullet, s.bubbles[j]) {
      SweepBubblesQuiet(bullet, bi, s, j + 1);
    }
  }

  lemma {:induction false} SweepBulletsQuiet(s: Sweep, bi: nat)
    ensures SweepBullets(s, bi).score == s.score <==>
              forall i, k :: bi <= i < |s.bullets| && 0 <= k < |s.bubbles| ==> !Hits(s.bullets[i], s.bubbles[k])
    ensures SweepBullets(s, bi).score == s.score ==> SweepBullets(s, bi) == s
    decreases |s.bullets| - bi
  {
    if bi < |s.bullets| {
      var t := SweepBubbles(s.bullets[bi], bi, s, 0);
      SweepBubblesQuiet(s.bullets[bi], bi, s, 0);
      if t.score == s.score {
        SweepBulletsQuiet(s, bi + 1);
      }
    }
  }

  /** The pass scores nothing exactly when no bullet/bubble pair overlaps, and
      then both arrays come out unchanged. */
  lemma CollideQuiet(s: Sweep)
    ensures Collide(s).score == s.score <==> NoHits(s.bullets, s.bubbles)
    ensures NoHits(s.bullets, s.bubbles) ==> Collide(s) == s
  {
    SweepBulletsQuiet(s, 0);
  }

  // ---------------------------------------------------------------- small cases

  /** One bullet and one bubble: they vanish together and score one point exactly
      when they overlap; otherwise nothing changes. */
  lemma OneOnOne(b: Bullet, u: Bubble, score: nat)
    ensures Hits(b, u) ==> Collide(Sweep([b], [u], score)) == Sweep([], [], score + 1)
    ensures !Hits(b, u) ==> Collide(Sweep([b], [u], score)) == Sweep([b], [u], score)
  {
    var s := Sweep([b], [u], score);
    var t := SweepBubbles(b, 0, s, 0);
    if Hits(b, u) {
      assert SweepBubbles(b, 0, s, 0) == SweepBubbles(b, 0, Sweep([], [], score + 1), 1);
      assert t == Sweep([], [], score + 1);
    } else {
      assert t == SweepBubbles(b, 0, s, 1) == s;
    }
    assert SweepBullets(s, 0) == SweepBullets(t, 1);
  }

  /** A bullet that has been spliced out still scores: one bullet over the first and
      third of three bubbles destroys both, and the middle bubble, shifted onto the
      index just examined, is never tested. */
  lemma SplicedBulletScoresAgain(b: Bullet, u0: Bubble, u1: Bubble, u2: Bubble)
    requires Hits(b, u0) && Hits(b, u2)
    ensures Collide(Sweep([b], [u0, u1, u2], 0)) == Sweep([], [u1], 2)
  {
    var s := Sweep([b], [u0, u1, u2], 0);
    var s1 := Sweep([], [u1, u2], 1);
    var s2 := Sweep([], [u1], 2);
    assert RemoveAt([u0, u1, u2], 0) == [u1, u2];
    assert RemoveAt([u1, u2], 1) == [u1];
    assert SweepBubbles(b, 0, s, 0) == SweepBubbles(b, 0, s1, 1);
    assert SweepBubbles(b, 0, s1, 1) == SweepBubbles(b, 0, s2, 2) == s2;
    assert SweepBullets(s, 0) == SweepBullets(s2, 1) == s2;
  }

  /** After a hit the next bullet shifts onto the index just done and is skipped:
      it survives the pass whether or not it overlaps the surviving bubble. */
  lemma ShiftedBulletSkipped(b0: Bullet, b1: Bullet, u0: Bubble, u1: Bubble)
    requires Hits(b0, u0)
    ensures Collide(Sweep([b0, b1], [u0, u1], 0)) == Sweep([b1], [u1], 1)
  {
    var s := Sweep([b0, b1], [u0, u1], 0);
    var s1 := Sweep([b1], [u1], 1);
    assert RemoveAt([b0, b1], 0) == [b1];
    assert RemoveAt([u0, u1], 0) == [u1];
    assert SweepBubbles(b0, 0, s, 0) == SweepBubbles(b0, 0, s1, 1) == s1;
    assert SweepBullets(s, 0) == SweepBullets(s1, 1) == s1;
  }

  /** A bubble that shifts onto the inner index just examined is skipped only by the
      current bullet: the inner loop starts again at index 0 for the next bullet, which
      still tests it. */
  lemma ShiftedBubbleRetested(b0: Bullet, b1: Bullet, b2: Bullet, u0: Bubble, u1: Bubble)
    requires Hits(b0, u0) && Hits(b2, u1)
    ensures Collide(Sweep([b0, b1, b2], [u0, u1], 0)) == Sweep([b1], [], 2)
  {
    var s := Sweep([b0, b1, b2], [u0, u1], 0);
    var s1 := Sweep([b1, b2], [u1], 1);
    var s2 := Sweep([b1], [], 2);
    assert RemoveAt([b0, b1, b2], 0) == [b1, b2];
    assert RemoveAt([u0, u1], 0) == [u1];
    assert RemoveAt([b1, b2], 1) == [b1];
    assert SweepBubbles(b0, 0, s, 0) == SweepBubbles(b0, 0, s1, 1) == s1;
    assert SweepBubbles(b2, 1, s1, 0) == SweepBubbles(b2, 1, s2, 1) == s2;
    assert SweepBullets(s, 0) == SweepBullets(s1, 1) == SweepBullets(s2, 2) == s2;
  }
}
