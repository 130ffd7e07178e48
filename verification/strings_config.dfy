/**
 * The Strings puzzle: a configuration is the current string; a move changes
 * one position one letter down or up the alphabet, wrapping between A and Z;
 * the goal is the target string.
 */
module StringsConfig {
  import opened JavaHash

  /** A configuration is its current string; the target is passed where it is needed. */
  datatype Config = Config(current: string)

  predicate IsUpper(ch: char) {
    'A' <= ch <= 'Z'
  }

  predicate Uppercase(s: string) {
    forall i :: 0 <= i < |s| ==> IsUpper(s[i])
  }

  /** Position of an uppercase letter in the alphabet, from 0 for A to 25 for Z. */
  function Index(ch: char): int {
    ch as int - 'A' as int
  }

  /**
   * Two uppercase letters are adjacent on the alphabet circle: one is a step
   * forward from the other modulo 26.
   */
  predicate Adjacent(a: char, b: char) {
    IsUpper(a) && IsUpper(b) && ((Index(b) - Index(a)) % 26 == 1 || (Index(b) - Index(a)) % 26 == 25)
  }

  /**
   * The left candidate for one position. A character at or below 'A' goes to
   * 'Z', one at or above 'Z' goes to 'Y', and any other goes one code down.
   */
  function Down(ch: char): (d: char)
    ensures IsUpper(d) && d != ch
  {
    if ch as int - 1 < 65 then 'Z'
    else if ch as int + 1 > 90 then 'Y'
    else (ch as int - 1) as char
  }

  /**
   * The right candidate for one position. A character at or below 'A' goes to
   * 'B', one at or above 'Z' goes to 'A', and any other goes one code up.
   */
  function Up(ch: char): (u: char)
    ensures IsUpper(u) && u != ch && u != Down(ch)
  {
    if ch as int - 1 < 65 then 'B'
    else if ch as int + 1 > 90 then 'A'
    else (ch as int + 1) as char
  }

  /** On uppercase letters the left step is one back and the right step one forward on the alphabet circle. */
  lemma StepsOnCircle(ch: char)
    requires IsUpper(ch)
    ensures Index(Down(ch)) == (Index(ch) + 25) % 26
    ensures Index(Up(ch)) == (Index(ch) + 1) % 26
  {
  }

  /** On uppercase letters the two steps undo each other. */
  lemma StepsAreInverse(ch: char)
    requires IsUpper(ch)
    ensures Up(Down(ch)) == ch && Down(Up(ch)) == ch
  {
  }

  /** The candidates of an uppercase letter are exactly its two neighbours on the alphabet circle. */
  lemma AdjacentIsStep(a: char, b: char)
    requires IsUpper(a)
    ensures Adjacent(a, b) <==> b == Down(a) || b == Up(a)
  {
  }

  lemma AdjacentIsSymmetric(a: char, b: char)
    ensures Adjacent(a, b) <==> Adjacent(b, a)
  {
  }

  /**
   * Candidate number `a` of `s`: position `a / 2` moved left when `a` is even
   * and right when it is odd, the rest of the string kept.
   */
  function Moved(s: string, a: int): string
    requires 0 <= a < 2 * |s|
  {
    var k := a / 2;
    s[k := if a % 2 == 0 then Down(s[k]) else Up(s[k])]
  }

  /** The successors produced for positions `i` onwards, left candidate before right. */
  function NeighborsFrom(s: string, i: int): (ns: seq<Config>)
    requires 0 <= i <= |s|
    ensures |ns| == 2 * (|s| - i)
    ensures forall a :: 0 <= a < |ns| ==> ns[a].current == Moved(s, 2 * i + a)
    decreases |s| - i
  {
    if i == |s| then []
    else [Config(s[i := Down(s[i])]), Config(s[i := Up(s[i])])] + NeighborsFrom(s, i + 1)
  }

  /**
   * `getNeighbors`: position by position, the left and then the right
   * candidate, in insertion order. The insertion-ordered set never drops one,
   * since all 2n candidates are distinct (`NeighborsDistinct`).
   */
  function Neighbors(c: Config): (ns: seq<Config>)
    ensures |ns| == 2 * |c.current|
    ensures forall a :: 0 <= a < |ns| ==> ns[a].current == Moved(c.current, a)
  {
    NeighborsFrom(c.current, 0)
  }

  /**
   * Every successor has the length of the current string and differs from it
   * at exactly one position, where it holds an uppercase letter: the left
   * candidate at even places of the list, the right one at odd places.
   */
  lemma NeighborChangesOnePosition(c: Config, a: int)
    requires 0 <= a < |Neighbors(c)|
    ensures |Neighbors(c)[a].current| == |c.current|
    ensures Neighbors(c)[a].current[a / 2] != c.current[a / 2] && IsUpper(Neighbors(c)[a].current[a / 2])
    ensures a % 2 == 0 ==> Neighbors(c)[a].current[a / 2] == Down(c.current[a / 2])
    ensures a % 2 == 1 ==> Neighbors(c)[a].current[a / 2] == Up(c.current[a / 2])
    ensures forall j :: 0 <= j < |c.current| && j != a / 2 ==> Neighbors(c)[a].current[j] == c.current[j]
  {
  }

  /**
   * Two different places of the successor list hold different strings: the
   * two candidates of one position differ there, and a candidate of an earlier
   * position differs from the current string where a later candidate does not.
   */
  lemma NeighborsDiffer(c: Config, a: int, b: int)
    requires 0 <= a < b < |Neighbors(c)|
    ensures Neighbors(c)[a] != Neighbors(c)[b]
  {
    var ns := Neighbors(c);
    var k := a / 2;
    if k == b / 2 {
      assert a % 2 == 0 && b % 2 == 1;
      assert ns[a].current[k] == Down(c.current[k]) && ns[b].current[k] == Up(c.current[k]);
    } else {
      assert ns[a].current[k] != c.current[k] && ns[b].current[k] == c.current[k];
    }
  }

  /** No two successors are equal, so the insertion-ordered set holds all 2n of them. */
  lemma NeighborsDistinct(c: Config)
    ensures forall a, b :: 0 <= a < b < |Neighbors(c)| ==> Neighbors(c)[a] != Neighbors(c)[b]
  {
    forall a, b | 0 <= a < b < |Neighbors(c)| ensures Neighbors(c)[a] != Neighbors(c)[b] {
      NeighborsDiffer(c, a, b);
    }
  }

  /** A string is never its own successor. */
  lemma NotOwnNeighbor(c: Config)
    ensures c !in Neighbors(c)
  {
    forall a | 0 <= a < |Neighbors(c)| ensures Neighbors(c)[a] != c {
      NeighborChangesOnePosition(c, a);
    }
  }

  /** The successors of an uppercase string are uppercase. */
  lemma NeighborsStayUppercase(c: Config)
    requires Uppercase(c.current)
    ensures forall n :: n in Neighbors(c) ==> Uppercase(n.current)
  {
  }

  /** `t` is one move from `s`: same length, one position moved to an adjacent letter, the rest kept. */
  ghost predicate OneStep(s: string, t: string) {
    |s| == |t| && exists i :: 0 <= i < |s| && Adjacent(s[i], t[i]) && Agree(s, t, i)
  }

  /** `s` and `t` agree everywhere except perhaps at position `i`. */
  predicate Agree(s: string, t: string, i: int)
    requires |s| == |t|
  {
    forall j :: 0 <= j < |s| && j != i ==> s[j] == t[j]
  }

  /** A successor of an uppercase string is one move away from it. */
  lemma NeighborIsOneStep(c: Config, a: int)
    requires Uppercase(c.current) && 0 <= a < |Neighbors(c)|
    ensures OneStep(c.current, Neighbors(c)[a].current)
  {
    var t := Neighbors(c)[a].current;
    var k := a / 2;
    NeighborChangesOnePosition(c, a);
    AdjacentIsStep(c.current[k], t[k]);
    assert Adjacent(c.current[k], t[k]) && Agree(c.current, t, k);
  }

  /** A string that agrees with successor `a` at its changed position and with the current string elsewhere is that successor. */
  lemma CandidateIs(c: Config, t: Config, a: int)
    requires 0 <= a < 2 * |c.current| && |t.current| == |c.current|
    requires t.current[a / 2] == Moved(c.current, a)[a / 2] && Agree(c.current, t.current, a / 2)
    ensures 0 <= a < |Neighbors(c)| && Neighbors(c)[a] == t
  {
  }

  /** A string one move away from an uppercase string is among its successors. */
  lemma OneStepIsNeighbor(c: Config, t: Config, i: int)
    requires |t.current| == |c.current| && 0 <= i < |c.current|
    requires Adjacent(c.current[i], t.current[i]) && Agree(c.current, t.current, i)
    ensures t in Neighbors(c)
  {
    AdjacentIsStep(c.current[i], t.current[i]);
    if t.current[i] == Down(c.current[i]) {
      assert (2 * i) / 2 == i && (2 * i) % 2 == 0;
      CandidateIs(c, t, 2 * i);
    } else {
      assert (2 * i + 1) / 2 == i && (2 * i + 1) % 2 == 1;
      CandidateIs(c, t, 2 * i + 1);
    }
  }

  /** For an uppercase string, the successors are exactly the strings one move away. */
  lemma NeighborsMembers(c: Config, t: Config)
    requires Uppercase(c.current)
    ensures t in Neighbors(c) <==> OneStep(c.current, t.current)
  {
    if t in Neighbors(c) {
      var a :| 0 <= a < |Neighbors(c)| && Neighbors(c)[a] == t;
      NeighborIsOneStep(c, a);
    }
    if OneStep(c.current, t.current) {
      var i :| 0 <= i < |c.current| && Adjacent(c.current[i], t.current[i]) && Agree(c.current, t.current, i);
      OneStepIsNeighbor(c, t, i);
    }
  }

  /** Between uppercase strings the successor relation is symmetric. */
  lemma NeighborsSymmetric(c: Config, t: Config)
    requires Uppercase(c.current) && t in Neighbors(c)
    ensures c in Neighbors(t)
  {
    NeighborsMembers(c, t);
    NeighborsStayUppercase(c);
    var s := c.current;
    var i :| 0 <= i < |s| && Adjacent(s[i], t.current[i]) && Agree(s, t.current, i);
    AdjacentIsSymmetric(s[i], t.current[i]);
    assert Adjacent(t.current[i], s[i]) && Agree(t.current, s, i);
    NeighborsMembers(t, c);
  }

  /** The documented example: `AB` gives `ZB`, `BB`, `AA`, `AC`, in that order. */
  lemma ExampleNeighbors()
    ensures Neighbors(Config("AB")) == [Config("ZB"), Config("BB"), Config("AA"), Config("AC")]
  {
    var ns := Neighbors(Config("AB"));
    assert ns[0].current == "ZB" && ns[1].current == "BB" && ns[2].current == "AA" && ns[3].current == "AC";
  }

  /** `isSolution`: the current string equals the target character by character. */
  function IsSolution(c: Config, target: string): (b: bool)
    ensures b <==> |c.current| == |target| && forall i :: 0 <= i < |target| ==> c.current[i] == target[i]
  {
    c.current == target
  }

  /** `hashCode`: the hash of the current string. */
  function Hash(c: Config): (h: nat)
    ensures h < Modulus
  {
    StringHash(c.current)
  }

  /** `equals`: two configurations are equal exactly when their strings are, and then their hashes agree. */
  function Equals(a: Config, b: Config): (r: bool)
    ensures r <==> |a.current| == |b.current| && forall i :: 0 <= i < |a.current| ==> a.current[i] == b.current[i]
    ensures r ==> Hash(a) == Hash(b)
  {
    a.current == b.current
  }
}
