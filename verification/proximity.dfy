/**
  `check_startdist_validity`: the keys of every other format-valid record whose
  position lies strictly closer than `MinStartDist` to the record being
  checked.  `sqrt(d2) < 0.25` is compared as `d2 < 0.25 * 0.25`, which
  `SqrtThreshold` justifies.  Line numbers refer to
  `check_init_pose_validity.py`.
 */
module Proximity {
  import opened PoseMap
  import opened Checks

  /** Every record is a four-number `[id, x, y, theta]` list. */
  ghost predicate Shaped(m: PoseMap)
  {
    forall i :: 0 <= i < |m| ==> |m[i].fields| == 4
  }

  /** Squared Euclidean distance between two positions. */
  function SqDist(x1: real, y1: real, x2: real, y2: real): real
  {
    (x1 - x2) * (x1 - x2) + (y1 - y2) * (y1 - y2)
  }

  /** Two positions closer than the minimum start distance. */
  predicate TooNear(x1: real, y1: real, x2: real, y2: real)
  {
    SqDist(x1, y1, x2, y2) < MinStartDist * MinStartDist
  }

  /** For a distance `d >= 0`, `d < 0.25` exactly when `d * d < 0.25 * 0.25`,
      so comparing squares decides what comparing the square root decides. */
  lemma SqrtThreshold(d: real)
    requires d >= 0.0
    ensures d < MinStartDist <==> d * d < MinStartDist * MinStartDist
  {
    assert MinStartDist == 0.25;
    if d >= 0.25 {
      assert d * d >= d * 0.25;
    } else {
      assert d * d <= d * 0.25;
    }
  }

  /** Nearness does not depend on which of the two positions is checked. */
  lemma TooNearSymmetric(x1: real, y1: real, x2: real, y2: real)
    ensures TooNear(x1, y1, x2, y2) <==> TooNear(x2, y2, x1, y1)
  {
    assert (x1 - x2) * (x1 - x2) == (x2 - x1) * (x2 - x1);
    assert (y1 - y2) * (y1 - y2) == (y2 - y1) * (y2 - y1);
  }

  /** The threshold is strict: equal positions clash, positions exactly 0.25
      apart do not, positions 0.24999 apart do. */
  lemma TooNearExamples()
    ensures TooNear(0.0, 0.0, 0.0, 0.0)
    ensures !TooNear(0.0, 0.0, 0.25, 0.0)
    ensures TooNear(0.0, 0.0, 0.24999, 0.0)
    ensures !TooNear(0.0, 0.0, 0.15, 0.2)
  {
  }

  /** The keys of the records of `m`, other than `checkKey`, standing too near
      to (x, y), in dict order. */
  function CloseKeys(checkKey: string, x: real, y: real, m: PoseMap): (r: seq<string>)
    requires Shaped(m)
    ensures forall k :: k in r <==>
              k != checkKey &&
              exists i :: 0 <= i < |m| && m[i].key == k && TooNear(x, y, m[i].fields[1], m[i].fields[2])
    ensures KeysInOrder(r, m)
  {
    if |m| == 0 then []
    else
      var rest := CloseKeys(checkKey, x, y, m[1..]);
      var e := m[0];
      assert forall i :: 1 <= i < |m| ==> m[i] == m[1..][i - 1];
      if e.key != checkKey && TooNear(x, y, e.fields[1], e.fields[2]) then
        assert ([e.key] + rest)[1..] == rest;
        [e.key] + rest
      else
        rest
  }

  /** Scanning from position `i` is deciding record `i`, then scanning on. */
  lemma CloseKeysStep(checkKey: string, x: real, y: real, m: PoseMap, i: nat)
    requires Shaped(m)
    requires i < |m|
    ensures CloseKeys(checkKey, x, y, m[i..]) ==
              (if m[i].key != checkKey && TooNear(x, y, m[i].fields[1], m[i].fields[2]) then [m[i].key] else [])
              + CloseKeys(checkKey, x, y, m[i + 1..])
  {
    assert m[i..][1..] == m[i + 1..];
    assert m[i..][0] == m[i];
  }

  /** The loop of `check_startdist_validity` (lines 160-169): read the
      checked record's position, then scan the dict in order, collecting
      every other key standing too near. */
  method FindTooClose(checkKey: string, m: PoseMap) returns (tooClose: seq<string>)
    requires Shaped(m)
    requires HasKey(m, checkKey)
    ensures var f := Get(m, checkKey).value;
            tooClose == CloseKeys(checkKey, f[1], f[2], m)
    ensures checkKey !in tooClose
  {
    var fields := m[Find(m, checkKey).value].fields;
    var checkX := fields[1];
    var checkY := fields[2];
    tooClose := [];
    var i := 0;
    while i < |m|
      invariant 0 <= i <= |m|
      invariant tooClose + CloseKeys(checkKey, checkX, checkY, m[i..]) ==
                CloseKeys(checkKey, checkX, checkY, m)
    {
      CloseKeysStep(checkKey, checkX, checkY, m, i);
      if m[i].key != checkKey {
        if TooNear(checkX, checkY, m[i].fields[1], m[i].fields[2]) {
          tooClose := tooClose + [m[i].key];
        }
      }
      i := i + 1;
    }
    assert m[|m|..] == [];
  }

  /** Proximity is mutual: `b` is reported too close to `a` exactly when `a`
      is reported too close to `b`. */
  lemma CloseSymmetric(m: PoseMap, a: nat, b: nat)
    requires Shaped(m) && UniqueKeys(m)
    requires a < |m| && b < |m|
    ensures var fa := m[a].fields; var fb := m[b].fields;
            m[b].key in CloseKeys(m[a].key, fa[1], fa[2], m) <==>
            m[a].key in CloseKeys(m[b].key, fb[1], fb[2], m)
  {
    var fa := m[a].fields;
    var fb := m[b].fields;
    TooNearSymmetric(fa[1], fa[2], fb[1], fb[2]);
    if m[b].key in CloseKeys(m[a].key, fa[1], fa[2], m) {
      var i :| 0 <= i < |m| && m[i].key == m[b].key && TooNear(fa[1], fa[2], m[i].fields[1], m[i].fields[2]);
      assert i == b;
    }
    if m[a].key in CloseKeys(m[b].key, fb[1], fb[2], m) {
      var i :| 0 <= i < |m| && m[i].key == m[a].key && TooNear(fb[1], fb[2], m[i].fields[1], m[i].fields[2]);
      assert i == a;
    }
  }

  /** Same keys and positions, record by record; ids and headings may differ. */
  ghost predicate SamePlaces(a: PoseMap, b: PoseMap)
  {
    && |a| == |b|
    && forall i :: 0 <= i < |a| ==>
         && a[i].key == b[i].key
         && |a[i].fields| == |b[i].fields| == 4
         && a[i].fields[1] == b[i].fields[1]
         && a[i].fields[2] == b[i].fields[2]
  }

  /** Proximity reads only keys and positions, so rewriting headings while the
      scan runs does not change any report. */
  lemma {:induction false} CloseKeysSamePlaces(checkKey: string, x: real, y: real, a: PoseMap, b: PoseMap)
    requires SamePlaces(a, b)
    ensures Shaped(a) && Shaped(b)
    ensures CloseKeys(checkKey, x, y, a) == CloseKeys(checkKey, x, y, b)
    decreases |a|
  {
    if |a| > 0 {
      assert SamePlaces(a[1..], b[1..]) by {
        forall i | 0 <= i < |a[1..]|
          ensures a[1..][i] == a[i + 1] && b[1..][i] == b[i + 1]
        {
        }
      }
      CloseKeysSamePlaces(checkKey, x, y, a[1..], b[1..]);
    }
  }
}
