/** Keeping the elements of a sequence that pass a test and mapping each of them to a
    record, in order: the shape of the extractor's entry loop, with the test and the
    record builder as parameters. */
module Selection {

  /** The records of the kept elements of `hs`, in the order of `hs`. */
  function Select<H, P>(keep: H -> bool, make: H -> P, hs: seq<H>): seq<P>
    decreases |hs|
  {
    if hs == [] then []
    else Select(keep, make, hs[..|hs| - 1]) + if keep(hs[|hs| - 1]) then [make(hs[|hs| - 1])] else []
  }

  /** The positions of the kept elements of `hs`, in increasing order. */
  function KeptIndices<H>(keep: H -> bool, hs: seq<H>): seq<nat>
    decreases |hs|
  {
    if hs == [] then []
    else KeptIndices(keep, hs[..|hs| - 1]) + if keep(hs[|hs| - 1]) then [|hs| - 1] else []
  }

  /** `origin` tells, for every record of `out`, the element of `hs` it was made from:
      each record is the one of a kept element, elements are taken in order and each at
      most once, and every kept element of `hs` has its record. */
  ghost predicate Explains<H, P>(keep: H -> bool, make: H -> P, hs: seq<H>, out: seq<P>, origin: seq<nat>)
  {
    && |origin| == |out|
    && (forall k :: 0 <= k < |origin| ==>
          origin[k] < |hs| && keep(hs[origin[k]]) && out[k] == make(hs[origin[k]]))
    && (forall k, l :: 0 <= k < l < |origin| ==> origin[k] < origin[l])
    && (forall j :: 0 <= j < |hs| && keep(hs[j]) ==> j in origin)
  }

  /** One more element keeps the explanation, with its record appended if it is kept. */
  lemma ExplainsStep<H, P>(keep: H -> bool, make: H -> P, hs: seq<H>, h: H, out: seq<P>, origin: seq<nat>)
    requires Explains(keep, make, hs, out, origin)
    ensures keep(h) ==> Explains(keep, make, hs + [h], out + [make(h)], origin + [|hs|])
    ensures !keep(h) ==> Explains(keep, make, hs + [h], out, origin)
  {
    var hs' := hs + [h];
    assert forall j :: 0 <= j < |hs| ==> hs'[j] == hs[j];
    if keep(h) {
      var origin' := origin + [|hs|];
      forall j | 0 <= j < |hs'| && keep(hs'[j]) ensures j in origin' {
        if j < |hs| {
          assert j in origin;
        } else {
          assert origin'[|origin|] == j;
        }
      }
    }
  }

  /** Dropping a last element that is kept drops the last record, which is its own. */
  lemma ExplainsDropKept<H, P>(keep: H -> bool, make: H -> P, hs: seq<H>, out: seq<P>, origin: seq<nat>)
    requires Explains(keep, make, hs, out, origin)
    requires hs != [] && keep(hs[|hs| - 1])
    ensures origin != [] && origin[|origin| - 1] == |hs| - 1
    ensures out[|out| - 1] == make(hs[|hs| - 1])
    ensures Explains(keep, make, hs[..|hs| - 1], out[..|out| - 1], origin[..|origin| - 1])
  {
    var n := |hs| - 1;
    assert n in origin;
    var m := |origin| - 1;
    var last :| 0 <= last < |origin| && origin[last] == n;
    assert last == m;
    var init, origin' := hs[..n], origin[..m];
    forall k | 0 <= k < m ensures origin'[k] < n {
      assert origin[k] < origin[m];
    }
    forall j | 0 <= j < n && keep(init[j]) ensures j in origin' {
      assert hs[j] == init[j];
      assert j in origin;
      var k :| 0 <= k < |origin| && origin[k] == j;
      assert origin'[k] == j;
    }
  }

  /** Dropping a last element that is not kept changes nothing. */
  lemma ExplainsDropOther<H, P>(keep: H -> bool, make: H -> P, hs: seq<H>, out: seq<P>, origin: seq<nat>)
    requires Explains(keep, make, hs, out, origin)
    requires hs != [] && !keep(hs[|hs| - 1])
    ensures Explains(keep, make, hs[..|hs| - 1], out, origin)
  {
    var n := |hs| - 1;
    assert forall k :: 0 <= k < |origin| ==> origin[k] != n;
    forall j | 0 <= j < n && keep(hs[..n][j]) ensures j in origin {
      assert hs[j] == hs[..n][j];
    }
  }

  /** An explanation is unique: it determines both the records and their origins. */
  lemma {:induction false} ExplainsUnique<H, P>(keep: H -> bool, make: H -> P, hs: seq<H>, out: seq<P>, origin: seq<nat>)
    requires Explains(keep, make, hs, out, origin)
    ensures out == Select(keep, make, hs)
    ensures origin == KeptIndices(keep, hs)
    decreases |hs|
  {
    if hs == [] {
      assert origin == [];
    } else {
      var n := |hs| - 1;
      if keep(hs[n]) {
        ExplainsDropKept(keep, make, hs, out, origin);
        var m := |origin| - 1;
        ExplainsUnique(keep, make, hs[..n], out[..m], origin[..m]);
        assert origin == origin[..m] + [n] && out == out[..m] + [make(hs[n])];
      } else {
        ExplainsDropOther(keep, make, hs, out, origin);
        ExplainsUnique(keep, make, hs[..n], out, origin);
      }
    }
  }

  /** `Select` is explained by the positions of the kept elements. */
  lemma {:induction false} SelectExplained<H, P>(keep: H -> bool, make: H -> P, hs: seq<H>)
    ensures Explains(keep, make, hs, Select(keep, make, hs), KeptIndices(keep, hs))
    decreases |hs|
  {
    if hs == [] {
    } else {
      var n := |hs| - 1;
      SelectExplained(keep, make, hs[..n]);
      ExplainsStep(keep, make, hs[..n], hs[n], Select(keep, make, hs[..n]), KeptIndices(keep, hs[..n]));
      assert hs[..n] + [hs[n]] == hs;
    }
  }

  /** Selecting from a concatenation concatenates the selections. */
  lemma {:induction false} SelectAppend<H, P>(keep: H -> bool, make: H -> P, a: seq<H>, b: seq<H>)
    ensures Select(keep, make, a + b) == Select(keep, make, a) + Select(keep, make, b)
    decreases |b|
  {
    if b == [] {
      assert a + b == a;
    } else {
      var n := |b| - 1;
      assert (a + b)[..|a + b| - 1] == a + b[..n];
      SelectAppend(keep, make, a, b[..n]);
    }
  }
}
