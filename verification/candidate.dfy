/**
 * The record the walk produces for every directory it visits, the shell
 * line written for it, and the name bookkeeping the writer relies on:
 * which names are skipped, how many candidates share a name, and the
 * same-name group in sequence order.
 */
module Candidates {

  /** One directory found by the walk: its base name, its path, how many of
      its entries are directories, and its depth counted from the caller's
      start level. */
  datatype Candidate = Candidate(name: string, path: string, numDirectories: nat, level: int)

  /** The line written to the alias file for a candidate. */
  function Line(c: Candidate): string
  {
    "alias " + c.name + "=\"cd " + c.path + "\"\n"
  }

  /** Reading a line back: the name sits right after the keyword, the path
      between the `cd ` prefix and the closing quote, and the line ends the
      shell command. */
  lemma LineFields(c: Candidate)
    ensures |Line(c)| == |c.name| + |c.path| + 13
    ensures Line(c)[..6] == "alias "
    ensures Line(c)[6..6 + |c.name|] == c.name
    ensures Line(c)[6 + |c.name|..11 + |c.name|] == "=\"cd "
    ensures Line(c)[11 + |c.name|..|Line(c)| - 2] == c.path
    ensures Line(c)[|Line(c)| - 2..] == "\"\n"
  {
  }

  /** Given the name, a line determines the directory it changes into. */
  lemma LineDeterminesPath(a: Candidate, b: Candidate)
    requires a.name == b.name
    requires Line(a) == Line(b)
    ensures a.path == b.path
  {
    LineFields(a);
    LineFields(b);
  }

  /** Names that never get an alias: the empty name and dot-names. */
  predicate Hidden(name: string)
  {
    |name| == 0 || name[0] == '.'
  }

  /** The names of a candidate sequence, position by position. */
  function Names(cs: seq<Candidate>): seq<string>
  {
    seq(|cs|, i requires 0 <= i < |cs| => cs[i].name)
  }

  /** How many candidates carry name `n`. */
  function CountName(cs: seq<Candidate>, n: string): nat
  {
    multiset(Names(cs))[n]
  }

  lemma CountNameSnoc(cs: seq<Candidate>, c: Candidate, n: string)
    ensures CountName(cs + [c], n) == CountName(cs, n) + (if c.name == n then 1 else 0)
  {
    assert Names(cs + [c]) == Names(cs) + [c.name];
  }

  /** The candidates named `n`, in sequence order. */
  function Group(cs: seq<Candidate>, n: string): seq<Candidate>
  {
    if |cs| == 0 then []
    else
      var last := cs[|cs| - 1];
      Group(cs[..|cs| - 1], n) + (if last.name == n then [last] else [])
  }

  /** A group holds exactly the candidates carrying its name. */
  lemma {:induction false} GroupMembers(cs: seq<Candidate>, n: string)
    ensures forall c :: c in Group(cs, n) <==> c in cs && c.name == n
  {
    if |cs| > 0 {
      var init, last := cs[..|cs| - 1], cs[|cs| - 1];
      assert cs == init + [last];
      GroupMembers(init, n);
    }
  }

  /** A group is as long as the count of its name. */
  lemma {:induction false} GroupSize(cs: seq<Candidate>, n: string)
    ensures |Group(cs, n)| == CountName(cs, n)
  {
    if |cs| > 0 {
      var init, last := cs[..|cs| - 1], cs[|cs| - 1];
      assert cs == init + [last];
      CountNameSnoc(init, last, n);
      GroupSize(init, n);
    }
  }

  /** Grouping distributes over concatenation. */
  lemma {:induction false} GroupConcat(a: seq<Candidate>, b: seq<Candidate>, n: string)
    ensures Group(a + b, n) == Group(a, n) + Group(b, n)
    decreases |b|
  {
    if |b| == 0 {
      assert a + b == a;
    } else {
      var init, last := b[..|b| - 1], b[|b| - 1];
      var tail := if last.name == n then [last] else [];
      assert (a + b)[..|a + b| - 1] == a + init;
      assert (a + b)[|a + b| - 1] == last;
      assert Group(b, n) == Group(init, n) + tail;
      GroupConcat(a, init, n);
    }
  }

  /** Every candidate of a group carries the group's name. */
  lemma GroupNamed(cs: seq<Candidate>, n: string)
    ensures forall i :: 0 <= i < |Group(cs, n)| ==> Group(cs, n)[i].name == n
  {
    var g := Group(cs, n);
    GroupMembers(cs, n);
    forall i | 0 <= i < |g|
      ensures g[i].name == n
    {
      assert g[i] in g;
    }
  }

  /** A name carried by exactly one candidate has that candidate as its whole group. */
  lemma {:induction false} GroupOfUnique(cs: seq<Candidate>, c: Candidate)
    requires c in cs
    requires CountName(cs, c.name) == 1
    ensures Group(cs, c.name) == [c]
  {
    var g := Group(cs, c.name);
    GroupMembers(cs, c.name);
    GroupSize(cs, c.name);
    assert c in g;
    assert |g| == 1;
    assert g[0] in g;
  }

  /** `a` is `b` with some elements dropped, order kept. */
  predicate Subsequence<T(==)>(a: seq<T>, b: seq<T>)
    decreases |b|
  {
    if |b| == 0 then |a| == 0
    else
      || (|a| > 0 && a[|a| - 1] == b[|b| - 1] && Subsequence(a[..|a| - 1], b[..|b| - 1]))
      || Subsequence(a, b[..|b| - 1])
  }
}
