/**
  The parsing half of `check_input_file_validity`: split the submission on
  newlines, skip empty lines, split each remaining line on commas and store
  `d[first token] = [float(t) for t in tokens]` in an insertion-ordered dict.
  Python's `float()` is the parameter `num`; a token it rejects makes `float()`
  raise, and the exception aborts the whole parse, which is `None` here.
  Line numbers refer to `check_init_pose_validity.py`.
 */
module Parser {
  import opened Wrappers
  import opened Text
  import opened PoseMap

  /** What one line of the submission contributes to the dict. */
  datatype Line = Blank | Row(key: string, values: seq<real>) | Unreadable

  /** Converts every token, failing as soon as one token does not convert. */
  function ConvertAll(tokens: seq<string>, num: string -> Option<real>): (r: Option<seq<real>>)
    ensures r.Some? <==> forall i :: 0 <= i < |tokens| ==> num(tokens[i]).Some?
    ensures r.Some? ==> |r.value| == |tokens|
    ensures r.Some? ==> forall i :: 0 <= i < |tokens| ==> num(tokens[i]) == Some(r.value[i])
  {
    if |tokens| == 0 then Some([])
    else
      match num(tokens[0])
      case None => None
      case Some(v) =>
        match ConvertAll(tokens[1..], num)
        case None => None
        case Some(vs) => Some([v] + vs)
  }

  /** One line: blank lines are skipped; otherwise every comma-separated token,
      the identifier included, becomes a number and the raw first token is the key. */
  function ReadLine(line: string, num: string -> Option<real>): Line
  {
    if line == "" then Blank
    else
      var tokens := Split(line, ',');
      match ConvertAll(tokens, num)
      case None => Unreadable
      case Some(vs) => Row(tokens[0], vs)
  }

  /** A line is skipped exactly when it is empty, fails exactly when one of its
      tokens does not convert, and otherwise yields all its tokens as numbers,
      the identifier first, keyed by the raw first token. */
  lemma ReadLineSpec(line: string, num: string -> Option<real>)
    ensures ReadLine(line, num).Blank? <==> line == ""
    ensures ReadLine(line, num).Unreadable? <==>
              line != "" && exists i :: 0 <= i < |Split(line, ',')| && num(Split(line, ',')[i]).None?
    ensures ReadLine(line, num).Row? ==>
              var r := ReadLine(line, num);
              var tokens := Split(line, ',');
              && r.key == tokens[0]
              && |r.values| == |tokens|
              && num(r.key) == Some(r.values[0])
              && forall i :: 0 <= i < |tokens| ==> num(tokens[i]) == Some(r.values[i])
  {
    var tokens := Split(line, ',');
    if line != "" {
      if ConvertAll(tokens, num).None? {
        assert ReadLine(line, num).Unreadable?;
        var i :| 0 <= i < |tokens| && !num(tokens[i]).Some?;
        assert num(Split(line, ',')[i]).None?;
      } else {
        assert !ReadLine(line, num).Unreadable?;
        assert forall i :: 0 <= i < |tokens| ==> num(tokens[i]).Some?;
      }
    }
  }

  /** Every line of the submission read on its own. */
  function ReadLines(lines: seq<string>, num: string -> Option<real>): (rows: seq<Line>)
    ensures |rows| == |lines|
    ensures forall i :: 0 <= i < |lines| ==> rows[i] == ReadLine(lines[i], num)
  {
    seq(|lines|, i requires 0 <= i < |lines| => ReadLine(lines[i], num))
  }

  /** The dict built by storing the rows in order (the loop of lines 179-188):
      `None` once a row is unreadable, because the exception ends the parse. */
  function Build(rows: seq<Line>): (r: Option<PoseMap>)
    ensures r.Some? ==> UniqueKeys(r.value)
    decreases |rows|
  {
    if |rows| == 0 then Some([])
    else
      match Build(rows[..|rows| - 1])
      case None => None
      case Some(m) =>
        match rows[|rows| - 1]
        case Blank => Some(m)
        case Unreadable => None
        case Row(k, vs) => Some(Insert(m, k, vs))
  }

  /** The whole submission text: split on newlines, read every line, build the dict. */
  function Parse(text: string, num: string -> Option<real>): Option<PoseMap>
  {
    Build(ReadLines(Split(text, '\n'), num))
  }

  /** Row `i` comes from a non-empty, readable line whose first token is `k`. */
  predicate RowAt(rows: seq<Line>, i: int, k: string)
    requires 0 <= i < |rows|
  {
    rows[i].Row? && rows[i].key == k
  }

  /** The parse fails exactly when some line holds a token `float()` rejects. */
  lemma {:induction false} BuildFailure(rows: seq<Line>)
    ensures Build(rows).None? <==> exists i :: 0 <= i < |rows| && rows[i].Unreadable?
    decreases |rows|
  {
    if |rows| > 0 {
      var n := |rows|;
      var pre := rows[..n - 1];
      BuildFailure(pre);
      if Build(pre).None? {
        var i :| 0 <= i < |pre| && pre[i].Unreadable?;
        assert rows[i] == pre[i];
      } else if !rows[n - 1].Unreadable? {
        forall i | 0 <= i < n
          ensures !rows[i].Unreadable?
        {
          if i < n - 1 {
            assert rows[i] == pre[i];
          }
        }
      }
    }
  }

  /** The last line stores its key, and leaves every other key present or
      absent as it was. */
  lemma BuildPresence(rows: seq<Line>, pre: seq<Line>, m: PoseMap, m0: PoseMap, k: string)
    requires |rows| > 0 && pre == rows[..|rows| - 1]
    requires Build(rows) == Some(m) && Build(pre) == Some(m0)
    ensures RowAt(rows, |rows| - 1, k) ==> HasKey(m, k)
    ensures !RowAt(rows, |rows| - 1, k) ==> (HasKey(m, k) <==> HasKey(m0, k))
  {
    var last := rows[|rows| - 1];
    if last.Row? {
      assert m == Insert(m0, last.key, last.values);
      assert HasKey(m, k) <==> last.key == k || HasKey(m0, k);
    } else {
      assert m == m0;
    }
  }

  /** One step of `BuildKeys`: the last line either carries `k` or leaves
      its presence as it was. */
  lemma BuildKeyStep(rows: seq<Line>, pre: seq<Line>, m: PoseMap, m0: PoseMap, k: string)
    requires |rows| > 0 && pre == rows[..|rows| - 1]
    requires Build(rows) == Some(m) && Build(pre) == Some(m0)
    requires HasKey(m0, k) <==> exists i :: 0 <= i < |pre| && RowAt(pre, i, k)
    ensures HasKey(m, k) <==> exists i :: 0 <= i < |rows| && RowAt(rows, i, k)
  {
    var n := |rows|;
    BuildPresence(rows, pre, m, m0, k);
    if !RowAt(rows, n - 1, k) {
      if HasKey(m0, k) {
        var i :| 0 <= i < |pre| && RowAt(pre, i, k);
        RowInPrefix(rows, i, k);
      } else {
        forall i | 0 <= i < n
          ensures !RowAt(rows, i, k)
        {
          if i < n - 1 {
            RowInPrefix(rows, i, k);
          }
        }
      }
    }
  }

  /** The dict's keys are exactly the first tokens of the non-empty lines. */
  lemma {:induction false} BuildKeys(rows: seq<Line>, m: PoseMap)
    requires Build(rows) == Some(m)
    ensures forall k :: HasKey(m, k) <==> exists i :: 0 <= i < |rows| && RowAt(rows, i, k)
    decreases |rows|
  {
    var n := |rows|;
    if n > 0 {
      var pre := rows[..n - 1];
      var m0 := Build(pre).value;
      BuildKeys(pre, m0);
      forall k
        ensures HasKey(m, k) <==> exists i :: 0 <= i < n && RowAt(rows, i, k)
      {
        BuildKeyStep(rows, pre, m, m0, k);
      }
    }
  }

  /** The last row that carries `k` is the one whose numbers `k` holds. */
  lemma {:induction false} BuildLastWinsAt(rows: seq<Line>, m: PoseMap, i: nat, k: string)
    requires Build(rows) == Some(m)
    requires i < |rows| && RowAt(rows, i, k)
    requires forall i' :: i < i' < |rows| ==> !RowAt(rows, i', k)
    ensures Get(m, k) == Some(rows[i].values)
    decreases |rows|
  {
    var n := |rows|;
    if i < n - 1 {
      var pre := rows[..n - 1];
      var m0 := Build(pre).value;
      assert !RowAt(rows, n - 1, k);
      assert rows[i] == pre[i];
      forall i' | i < i' < |pre|
        ensures !RowAt(pre, i', k)
      {
        assert rows[i'] == pre[i'];
        assert !RowAt(rows, i', k);
      }
      BuildLastWinsAt(pre, m0, i, k);
    }
  }

  /** A repeated key holds the numbers of the last line that carries it. */
  lemma BuildLastWins(rows: seq<Line>, m: PoseMap)
    requires Build(rows) == Some(m)
    ensures forall i, k ::
              0 <= i < |rows| && RowAt(rows, i, k) &&
              (forall i' :: i < i' < |rows| ==> !RowAt(rows, i', k))
              ==> Get(m, k) == Some(rows[i].values)
  {
    forall i, k |
      0 <= i < |rows| && RowAt(rows, i, k) &&
      (forall i' :: i < i' < |rows| ==> !RowAt(rows, i', k))
      ensures Get(m, k) == Some(rows[i].values)
    {
      BuildLastWinsAt(rows, m, i, k);
    }
  }

  /** Key `k1` occurs on a line before every line that carries key `k2`. */
  ghost predicate FirstSeenBefore(rows: seq<Line>, k1: string, k2: string)
  {
    forall i2 :: 0 <= i2 < |rows| && RowAt(rows, i2, k2) ==>
      exists i1 :: 0 <= i1 < i2 && RowAt(rows, i1, k1)
  }

  /** One more row either leaves the dict as it was or stores the row in it;
      keys already present keep their positions. */
  lemma BuildStep(rows: seq<Line>, m: PoseMap)
    requires Build(rows) == Some(m)
    requires |rows| > 0
    ensures Build(rows[..|rows| - 1]).Some?
    ensures var m0 := Build(rows[..|rows| - 1]).value;
            && |m0| <= |m|
            && (forall j :: 0 <= j < |m0| ==> m[j].key == m0[j].key)
            && (|m| > |m0| ==> |m| == |m0| + 1 && rows[|rows| - 1].Row? &&
                                m[|m0|].key == rows[|rows| - 1].key && !HasKey(m0, rows[|rows| - 1].key))
  {
  }

  /** A row of the lines before the last is a row of all the lines. */
  lemma RowInPrefix(rows: seq<Line>, i: nat, k: string)
    requires i < |rows| - 1
    ensures RowAt(rows[..|rows| - 1], i, k) <==> RowAt(rows, i, k)
  {
    assert rows[..|rows| - 1][i] == rows[i];
  }

  /** Appending a line keeps `k1` seen before `k2` when `k1` already occurs. */
  lemma FirstSeenExtend(rows: seq<Line>, k1: string, k2: string, w: nat)
    requires |rows| > 0 && w < |rows| - 1 && RowAt(rows, w, k1)
    requires FirstSeenBefore(rows[..|rows| - 1], k1, k2)
    ensures FirstSeenBefore(rows, k1, k2)
  {
    var pre := rows[..|rows| - 1];
    forall i2 | 0 <= i2 < |rows| && RowAt(rows, i2, k2)
      ensures exists i1 :: 0 <= i1 < i2 && RowAt(rows, i1, k1)
    {
      if i2 < |rows| - 1 {
        RowInPrefix(rows, i2, k2);
        var i1 :| 0 <= i1 < i2 && RowAt(pre, i1, k1);
        RowInPrefix(rows, i1, k1);
      } else {
        assert w < i2;
      }
    }
  }

  /** A key whose only line is the last one is seen after any key that
      occurs earlier. */
  lemma FirstSeenNew(rows: seq<Line>, pre: seq<Line>, k1: string, k2: string, w: nat)
    requires |rows| > 0 && pre == rows[..|rows| - 1]
    requires w < |pre| && RowAt(rows, w, k1)
    requires forall i :: 0 <= i < |pre| ==> !RowAt(pre, i, k2)
    ensures FirstSeenBefore(rows, k1, k2)
  {
    forall i2 | 0 <= i2 < |rows| && RowAt(rows, i2, k2)
      ensures exists i1 :: 0 <= i1 < i2 && RowAt(rows, i1, k1)
    {
      if i2 < |rows| - 1 {
        RowInPrefix(rows, i2, k2);
        assert false;
      } else {
        assert w < i2;
      }
    }
  }

  /** The dict's order is the order in which keys first appear. */
  lemma {:induction false} BuildFirstOrderAt(rows: seq<Line>, m: PoseMap, j1: nat, j2: nat)
    requires Build(rows) == Some(m)
    requires j1 < j2 < |m|
    ensures FirstSeenBefore(rows, m[j1].key, m[j2].key)
    decreases |rows|
  {
    var n := |rows|;
    var pre := rows[..n - 1];
    BuildStep(rows, m);
    var m0 := Build(pre).value;
    var k1 := m[j1].key;
    var k2 := m[j2].key;
    FindUnique(m0, j1);
    BuildKeys(pre, m0);
    assert HasKey(m0, k1);
    var w :| 0 <= w < |pre| && RowAt(pre, w, k1);
    RowInPrefix(rows, w, k1);
    if j2 < |m0| {
      BuildFirstOrderAt(pre, m0, j1, j2);
      FirstSeenExtend(rows, k1, k2, w);
    } else {
      // k2 is the key the last row appended, so it has no row in `pre`
      assert !HasKey(m0, k2);
      FirstSeenNew(rows, pre, k1, k2, w);
    }
  }

  /** Keys keep the order of their FIRST lines: a key placed before another
      has a line before every line of the other. */
  lemma BuildFirstOrder(rows: seq<Line>, m: PoseMap)
    requires Build(rows) == Some(m)
    ensures forall j1, j2 :: 0 <= j1 < j2 < |m| ==> FirstSeenBefore(rows, m[j1].key, m[j2].key)
  {
    forall j1, j2 | 0 <= j1 < j2 < |m|
      ensures FirstSeenBefore(rows, m[j1].key, m[j2].key)
    {
      BuildFirstOrderAt(rows, m, j1, j2);
    }
  }
}
