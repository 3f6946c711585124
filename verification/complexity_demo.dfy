/**
 * The three scans of the algorithm demo view model that illustrate constant,
 * linear and quadratic running time. Each is modelled by the trace of the
 * names, or for the quadratic scan the pairs of names, its body reaches, in
 * order: the length of the trace is the number of steps the scan takes,
 * which is what each scan is there to show.
 */
module ComplexityDemo {

  /**
   * Constant time: only the first name is reached, whatever the length of
   * the list; an empty list reaches nothing.
   */
  method CheckFirst(names: seq<string>) returns (visited: seq<string>)
    ensures |visited| <= 1 && visited <= names
    ensures |names| > 0 <==> |visited| == 1
  {
    if |names| > 0 {
      visited := [names[0]];
    } else {
      visited := [];
    }
  }

  /** Linear time: every name is reached exactly once, in list order. */
  method PrintNames(names: seq<string>) returns (visited: seq<string>)
    ensures visited == names
  {
    visited := [];
    for i := 0 to |names|
      invariant visited == names[..i]
    {
      visited := visited + [names[i]];
    }
  }

  /** The pairs the inner loop reaches for one outer name x: x with each name in turn. */
  function Row(x: string, names: seq<string>): (row: seq<(string, string)>)
    ensures |row| == |names|
    ensures forall k :: 0 <= k < |names| ==> row[k] == (x, names[k])
  {
    seq(|names|, k requires 0 <= k < |names| => (x, names[k]))
  }

  /**
   * The pairs the nested loops reach: the row of each outer name, one after
   * the other. There are |outer| * |names| of them.
   */
  function Grid(outer: seq<string>, names: seq<string>): (grid: seq<(string, string)>)
    ensures |grid| == |outer| * |names|
  {
    if outer == [] then []
    else
      var init := outer[..|outer| - 1];
      assert |outer| * |names| == |init| * |names| + |names|;
      Grid(init, names) + Row(outer[|outer| - 1], names)
  }

  /**
   * Quadratic time: for each name the inner loop runs over all names again;
   * the pairs it reaches are the grid of names against names.
   */
  method PrintNamesTwice(names: seq<string>) returns (visits: seq<(string, string)>)
    ensures visits == Grid(names, names)
  {
    visits := [];
    for i := 0 to |names|
      invariant visits == Grid(names[..i], names)
    {
      ghost var before := visits;
      for j := 0 to |names|
        invariant visits == before + Row(names[i], names[..j])
      {
        assert Row(names[i], names[..j + 1]) == Row(names[i], names[..j]) + [(names[i], names[j])];
        visits := visits + [(names[i], names[j])];
      }
      assert names[..i + 1][..i] == names[..i] && names[..|names|] == names;
    }
    assert names[..|names|] == names;
  }

  /**
   * The pair of outer name i and inner name j is reached exactly at step
   * i * |names| + j: all pairs are reached, each once, outer name first.
   */
  lemma {:induction false} GridAt(outer: seq<string>, names: seq<string>, i: nat, j: nat)
    requires i < |outer| && j < |names|
    ensures i * |names| + j < |Grid(outer, names)|
    ensures Grid(outer, names)[i * |names| + j] == (outer[i], names[j])
  {
    var init := outer[..|outer| - 1];
    assert |outer| * |names| == |init| * |names| + |names|;
    if i < |init| {
      GridAt(init, names, i, j);
      assert outer[i] == init[i];
    }
  }
}
