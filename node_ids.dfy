/**
 * Node identifiers of the road graph.
 *
 * map_utils.py keys its dictionaries by strings for road-derived nodes
 * (`r{id}_L`, `r{id}_M`, ..., `i{a}_{b}`) and by the integer id for hubs. The model
 * uses a tagged variant instead, and `Name` renders each variant as the source's
 * key would print (`str(node)`). The lemmas below show that this is faithful: the
 * rendering is injective, and the source's string tests `startswith("r{id}_")`
 * (map_utils.py) and `"r{id}_" in str(node)` (simulator.py) hold exactly of the
 * road nodes of road `id`.
 */
module NodeIds {

  /** Which of a road's three centre-line points: left/top, middle, right/bottom. */
  datatype Tag = L | M | R | T | B

  datatype NodeId =
    | RoadPt(rid: int, tag: Tag)   // `r{rid}_{tag}`
    | Inter(a: int, b: int)        // `i{a}_{b}`, the overlap of roads a and b
    | HubNode(hid: int)            // the hub's integer id

  predicate IsDigit(c: char) { '0' <= c <= '9' }

  /** A character that can occur in `str(i)` for an integer i. */
  predicate IsNumeral(c: char) { IsDigit(c) || c == '-' }

  function TagChar(t: Tag): char
  {
    match t
    case L => 'L'
    case M => 'M'
    case R => 'R'
    case T => 'T'
    case B => 'B'
  }

  /** Decimal digits of a natural number, as Python's `str`. */
  function NatToString(n: nat): (s: string)
    ensures |s| >= 1 && forall i :: 0 <= i < |s| ==> IsDigit(s[i])
    ensures n >= 10 ==> |s| >= 2
  {
    var d := "0123456789"[n % 10];
    if n < 10 then [d] else NatToString(n / 10) + [d]
  }

  /** Python's `str(i)` for an integer. */
  function IntToString(i: int): (s: string)
    ensures |s| >= 1 && forall k :: 0 <= k < |s| ==> IsNumeral(s[k])
  {
    if i < 0 then "-" + NatToString(-i) else NatToString(i)
  }

  /** `str(node)` for each kind of node id. */
  function Name(n: NodeId): string
  {
    match n
    case RoadPt(rid, tag) => "r" + IntToString(rid) + "_" + [TagChar(tag)]
    case Inter(a, b) => "i" + IntToString(a) + "_" + IntToString(b)
    case HubNode(hid) => IntToString(hid)
  }

  lemma {:induction false} NatToStringInjective(a: nat, b: nat)
    requires NatToString(a) == NatToString(b)
    ensures a == b
  {
    var sa, sb := NatToString(a), NatToString(b);
    assert sa[|sa| - 1] == sb[|sb| - 1];
    if a >= 10 && b >= 10 {
      assert NatToString(a / 10) == sa[..|sa| - 1] == sb[..|sb| - 1] == NatToString(b / 10);
      NatToStringInjective(a / 10, b / 10);
    }
  }

  lemma IntToStringInjective(i: int, j: int)
    requires IntToString(i) == IntToString(j)
    ensures i == j
  {
    var si, sj := IntToString(i), IntToString(j);
    assert i < 0 <==> si[0] == '-';
    assert j < 0 <==> sj[0] == '-';
    if i < 0 && j < 0 {
      assert NatToString(-i) == si[1..] == sj[1..] == NatToString(-j);
      NatToStringInjective(-i, -j);
    } else if i >= 0 && j >= 0 {
      assert NatToString(i) == si == sj == NatToString(j);
      NatToStringInjective(i, j);
    }
  }

  /**
   * Cutting at the first underscore: if `x + "_"` begins `x' + "_" + y'` and neither
   * `x` nor `x'` holds an underscore, then `x == x'`.
   */
  lemma PrefixUpToUnderscore(x: string, x': string, y': string)
    requires forall k :: 0 <= k < |x| ==> IsNumeral(x[k])
    requires forall k :: 0 <= k < |x'| ==> IsNumeral(x'[k])
    requires StartsWith(x' + "_" + y', x + "_")
    ensures x == x'
  {
    var s, q := x' + "_" + y', x + "_";
    JoinAt(x', y');
    JoinAt(x, []);
    assert s[..|q|] == q;
    assert s[|x|] == '_';
    assert s[|x'|] == '_';
    assert x == s[..|x|] == x';
  }

  /** The characters of `x + "_" + y`, position by position. */
  lemma JoinAt(x: string, y: string)
    ensures |x + "_" + y| == |x| + 1 + |y|
    ensures forall k :: 0 <= k < |x| ==> (x + "_" + y)[k] == x[k]
    ensures (x + "_" + y)[|x|] == '_'
    ensures forall k :: |x| < k < |x| + 1 + |y| ==> (x + "_" + y)[k] == y[k - |x| - 1]
  {
  }

  lemma RoadNameInjective(r1: int, t1: Tag, r2: int, t2: Tag)
    requires Name(RoadPt(r1, t1)) == Name(RoadPt(r2, t2))
    ensures r1 == r2 && t1 == t2
  {
    var s := Name(RoadPt(r1, t1));
    var x, x' := IntToString(r1), IntToString(r2);
    assert s[1..] == x + "_" + [TagChar(t1)] == x' + "_" + [TagChar(t2)];
    assert StartsWith(x' + "_" + [TagChar(t2)], x + "_") by {
      assert (x' + "_" + [TagChar(t2)])[..|x| + 1] == (x + "_" + [TagChar(t1)])[..|x| + 1] == x + "_";
    }
    PrefixUpToUnderscore(x, x', [TagChar(t2)]);
    IntToStringInjective(r1, r2);
    assert TagChar(t1) == s[|s| - 1] == TagChar(t2);
  }

  lemma InterNameInjective(a1: int, b1: int, a2: int, b2: int)
    requires Name(Inter(a1, b1)) == Name(Inter(a2, b2))
    ensures a1 == a2 && b1 == b2
  {
    var s := Name(Inter(a1, b1));
    var x, x', y, y' := IntToString(a1), IntToString(a2), IntToString(b1), IntToString(b2);
    assert s[1..] == x + "_" + y == x' + "_" + y';
    assert StartsWith(x' + "_" + y', x + "_") by {
      assert (x' + "_" + y')[..|x| + 1] == (x + "_" + y)[..|x| + 1] == x + "_";
    }
    PrefixUpToUnderscore(x, x', y');
    IntToStringInjective(a1, a2);
    assert y == s[|x| + 2..] == y';
    IntToStringInjective(b1, b2);
  }

  /** Distinct node ids print as distinct keys, so no two nodes share a key. */
  lemma NameInjective(m: NodeId, n: NodeId)
    requires Name(m) == Name(n)
    ensures m == n
  {
    var s := Name(m);
    assert s[0] == Name(n)[0];
    assert IsNumeral(s[0]) <==> m.HubNode?;
    assert IsNumeral(Name(n)[0]) <==> n.HubNode?;
    if m.RoadPt? && n.RoadPt? {
      RoadNameInjective(m.rid, m.tag, n.rid, n.tag);
    } else if m.Inter? && n.Inter? {
      InterNameInjective(m.a, m.b, n.a, n.b);
    } else if m.HubNode? && n.HubNode? {
      IntToStringInjective(m.hid, n.hid);
    }
  }

  /** The prefix `r{rid}_` that marks the nodes of road `rid`. */
  function RoadPrefix(rid: int): string { "r" + IntToString(rid) + "_" }

  predicate StartsWith(s: string, p: string) { |p| <= |s| && s[..|p|] == p }

  /** Python's `p in s` for strings: `p` occurs somewhere in `s`. */
  predicate Contains(s: string, p: string)
  {
    exists i | 0 <= i <= |s| - |p| :: OccursAt(s, p, i)
  }

  predicate OccursAt(s: string, p: string, i: int)
  {
    0 <= i <= |s| - |p| && s[i..i + |p|] == p
  }

  /** `nid.startswith(f"r{rid}_")` holds exactly of the road nodes of road `rid`. */
  lemma StartsWithRoadPrefix(n: NodeId, rid: int)
    ensures StartsWith(Name(n), RoadPrefix(rid)) <==> n.RoadPt? && n.rid == rid
  {
    var s, p := Name(n), RoadPrefix(rid);
    if n.RoadPt? && n.rid == rid {
      assert s == p + [TagChar(n.tag)];
    } else if StartsWith(s, p) {
      assert s[0] == p[0] == 'r';
      assert IsNumeral(Name(n)[0]) <==> n.HubNode?;
      if n.RoadPt? {
        var x, x' := IntToString(rid), IntToString(n.rid);
        assert s[1..] == x' + "_" + [TagChar(n.tag)];
        assert StartsWith(s[1..], x + "_") by {
          assert s[1..][..|x| + 1] == s[..|p|][1..] == p[1..] == x + "_";
        }
        PrefixUpToUnderscore(x, x', [TagChar(n.tag)]);
        IntToStringInjective(rid, n.rid);
      }
    }
  }

  /** Where the letter `r` can stand in a node's printed key: only at the front. */
  lemma LetterROnlyFirst(n: NodeId)
    ensures forall i :: 0 <= i < |Name(n)| && Name(n)[i] == 'r' ==> i == 0 && n.RoadPt?
  {
    var s := Name(n);
    match n
    case RoadPt(rid, tag) =>
      JoinAt(IntToString(rid), [TagChar(tag)]);
      assert s == "r" + (IntToString(rid) + "_" + [TagChar(tag)]);
    case Inter(a, b) =>
      JoinAt(IntToString(a), IntToString(b));
      assert s == "i" + (IntToString(a) + "_" + IntToString(b));
    case HubNode(h) =>
  }

  /** `f"r{rid}_" in str(node)` holds exactly of the road nodes of road `rid`. */
  lemma ContainsRoadPrefix(n: NodeId, rid: int)
    ensures Contains(Name(n), RoadPrefix(rid)) <==> n.RoadPt? && n.rid == rid
  {
    var s, p := Name(n), RoadPrefix(rid);
    StartsWithRoadPrefix(n, rid);
    if Contains(s, p) {
      var i :| 0 <= i <= |s| - |p| && OccursAt(s, p, i);
      assert s[i] == s[i..i + |p|][0] == p[0] == 'r';
      LetterROnlyFirst(n);
      assert StartsWith(s, p);
    } else if n.RoadPt? && n.rid == rid {
      assert OccursAt(s, p, 0);
    }
  }
}
