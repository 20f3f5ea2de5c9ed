/**
 * The writer's decision, as a function of the whole candidate sequence:
 * which candidates get an alias line, in which order. Names that are empty
 * or start with a dot are skipped; a name carried by one candidate is
 * written; a name carried by several is written for the current candidate
 * whenever some member of its same-name group passes the preferred test.
 */
module Resolver {
  import opened Candidates
  import opened Results

  /** The verdict of the regular-expression engine: does `pattern` match at
      the start of `path`, case-insensitively and in multi-line mode. Its
      semantics are not modelled; the writer only consumes the verdict. */
  type Matcher = (string, string) -> bool

  /** The scan's test on one member of a same-name group: a non-empty name
      whose path the preferred pattern matches. */
  predicate Preferred(c: Candidate, preferred: string, rx: Matcher)
  {
    |c.name| > 0 && rx(preferred, c.path)
  }

  /** The scan over a same-name group from position `from`: the first member
      that passes the preferred test, where the scan stops, or nothing. */
  function ScanFrom(group: seq<Candidate>, from: nat, preferred: string, rx: Matcher): (r: Option<nat>)
    requires from <= |group|
    ensures r.Some? ==> from <= r.value < |group| && Preferred(group[r.value], preferred, rx)
    ensures r.Some? ==> forall j :: from <= j < r.value ==> !Preferred(group[j], preferred, rx)
    ensures r.None? ==> forall j :: from <= j < |group| ==> !Preferred(group[j], preferred, rx)
    decreases |group| - from
  {
    if from == |group| then None
    else if Preferred(group[from], preferred, rx) then Some(from)
    else ScanFrom(group, from + 1, preferred, rx)
  }

  /** Whether a candidate named `n` gets its line, among candidates `cs`. */
  predicate Emits(n: string, cs: seq<Candidate>, preferred: string, rx: Matcher)
  {
    if |n| == 0 then false
    else if n[0] == '.' then false
    else if CountName(cs, n) == 1 then true
    else ScanFrom(Group(cs, n), 0, preferred, rx).Some?
  }

  /** The candidates of `todo`, in order, whose line is written when the
      decisions are taken against the whole sequence `cs`. */
  function Emitted(todo: seq<Candidate>, cs: seq<Candidate>, preferred: string, rx: Matcher): seq<Candidate>
  {
    if |todo| == 0 then []
    else
      var c := todo[|todo| - 1];
      Emitted(todo[..|todo| - 1], cs, preferred, rx) + (if Emits(c.name, cs, preferred, rx) then [c] else [])
  }

  /** The candidates whose lines the writer produces, in output order. */
  function Resolve(cs: seq<Candidate>, preferred: string, rx: Matcher): seq<Candidate>
  {
    Emitted(cs, cs, preferred, rx)
  }

  /** The text of the alias file: one line per emitted candidate. */
  function Render(out: seq<Candidate>): seq<string>
  {
    seq(|out|, i requires 0 <= i < |out| => Line(out[i]))
  }

  lemma RenderConcat(a: seq<Candidate>, b: seq<Candidate>)
    ensures Render(a + b) == Render(a) + Render(b)
  {
    assert forall i :: 0 <= i < |a + b| ==> Render(a + b)[i] == (Render(a) + Render(b))[i];
  }

  /** The candidates whose names are neither empty nor dot-names. */
  function Visible(cs: seq<Candidate>): seq<Candidate>
  {
    if |cs| == 0 then []
    else
      var c := cs[|cs| - 1];
      Visible(cs[..|cs| - 1]) + (if Hidden(c.name) then [] else [c])
  }

  // ---------------------------------------------------------------------
  // The decision for one name.
  // ---------------------------------------------------------------------

  /** A name gets lines exactly when it is visible and either unique or
      some candidate carrying it has a path the preferred pattern matches. */
  lemma EmitsIff(n: string, cs: seq<Candidate>, preferred: string, rx: Matcher)
    ensures Emits(n, cs, preferred, rx) <==>
      && !Hidden(n)
      && (|| CountName(cs, n) == 1
          || exists i :: 0 <= i < |cs| && cs[i].name == n && rx(preferred, cs[i].path))
  {
    if !Hidden(n) && CountName(cs, n) != 1 {
      var g := Group(cs, n);
      GroupNamed(cs, n);
      GroupMembers(cs, n);
      var r := ScanFrom(g, 0, preferred, rx);
      if r.Some? {
        assert g[r.value] in g;
        var i :| 0 <= i < |cs| && cs[i] == g[r.value];
      }
      if exists i :: 0 <= i < |cs| && cs[i].name == n && rx(preferred, cs[i].path) {
        var i :| 0 <= i < |cs| && cs[i].name == n && rx(preferred, cs[i].path);
        assert cs[i] in g;
        var j :| 0 <= j < |g| && g[j] == cs[i];
        assert Preferred(g[j], preferred, rx);
      }
    }
  }

  // ---------------------------------------------------------------------
  // Whole-output properties.
  // ---------------------------------------------------------------------

  /** Per name, the output holds either every candidate of that name, in
      order, or none of them. */
  lemma {:induction false} EmittedGroup(todo: seq<Candidate>, cs: seq<Candidate>, n: string, preferred: string, rx: Matcher)
    ensures Group(Emitted(todo, cs, preferred, rx), n) == (if Emits(n, cs, preferred, rx) then Group(todo, n) else [])
  {
    if |todo| > 0 {
      var init, c := todo[..|todo| - 1], todo[|todo| - 1];
      var step := if Emits(c.name, cs, preferred, rx) then [c] else [];
      EmittedGroup(init, cs, n, preferred, rx);
      GroupConcat(Emitted(init, cs, preferred, rx), step, n);
      assert Group([], n) == [];
      assert Group([c], n) == Group([], n) + (if c.name == n then [c] else []) by {
        assert [c][..0] == [];
      }
    }
  }

  /** Each step writes at most the current candidate, so the output keeps
      candidate order and is never longer than the input. */
  lemma {:induction false} EmittedInOrder(todo: seq<Candidate>, cs: seq<Candidate>, preferred: string, rx: Matcher)
    ensures Subsequence(Emitted(todo, cs, preferred, rx), todo)
    ensures |Emitted(todo, cs, preferred, rx)| <= |todo|
  {
    if |todo| > 0 {
      var init, c := todo[..|todo| - 1], todo[|todo| - 1];
      var e := Emitted(init, cs, preferred, rx);
      EmittedInOrder(init, cs, preferred, rx);
      assert todo[..|todo| - 1] == init;
      if Emits(c.name, cs, preferred, rx) {
        assert (e + [c])[..|e|] == e;
      } else {
        assert e + [] == e;
      }
    }
  }

  /** The output keeps candidate order: every line comes from a candidate,
      at most one per candidate, in sequence order. */
  lemma ResolveInOrder(cs: seq<Candidate>, preferred: string, rx: Matcher)
    ensures Subsequence(Resolve(cs, preferred, rx), cs)
    ensures |Render(Resolve(cs, preferred, rx))| <= |cs|
  {
    EmittedInOrder(cs, cs, preferred, rx);
  }

  /** No candidate with an empty or dot name gets a line, and no line carries
      such a name. */
  lemma ResolveSkipsHidden(cs: seq<Candidate>, preferred: string, rx: Matcher)
    ensures forall c :: c in cs && Hidden(c.name) ==> Group(Resolve(cs, preferred, rx), c.name) == []
    ensures forall e :: e in Resolve(cs, preferred, rx) ==> e in cs && !Hidden(e.name)
  {
    var out := Resolve(cs, preferred, rx);
    forall c | c in cs && Hidden(c.name)
      ensures Group(out, c.name) == []
    {
      EmittedGroup(cs, cs, c.name, preferred, rx);
    }
    forall e | e in out
      ensures e in cs && !Hidden(e.name)
    {
      EmittedGroup(cs, cs, e.name, preferred, rx);
      GroupMembers(out, e.name);
      GroupMembers(cs, e.name);
      assert e in Group(out, e.name);
    }
  }

  /** A visible candidate whose name no other candidate carries gets exactly
      one line, its own. */
  lemma ResolveUnique(cs: seq<Candidate>, c: Candidate, preferred: string, rx: Matcher)
    requires c in cs && !Hidden(c.name)
    requires CountName(cs, c.name) == 1
    ensures Group(Resolve(cs, preferred, rx), c.name) == [c]
    ensures Line(c) in Render(Resolve(cs, preferred, rx))
  {
    var out := Resolve(cs, preferred, rx);
    EmittedGroup(cs, cs, c.name, preferred, rx);
    GroupOfUnique(cs, c);
    GroupMembers(out, c.name);
    assert c in Group(out, c.name);
    var i :| 0 <= i < |out| && out[i] == c;
    assert Render(out)[i] == Line(c);
  }

  /** A visible name carried by several candidates is all or nothing: when
      some candidate carrying it has a path the preferred pattern matches,
      every one of them gets its own line, in order; otherwise none does. */
  lemma ResolveAmbiguous(cs: seq<Candidate>, n: string, preferred: string, rx: Matcher)
    requires !Hidden(n) && CountName(cs, n) > 1
    ensures (exists i :: 0 <= i < |cs| && cs[i].name == n && rx(preferred, cs[i].path)) ==>
              Group(Resolve(cs, preferred, rx), n) == Group(cs, n)
              && |Group(Resolve(cs, preferred, rx), n)| == CountName(cs, n)
    ensures (forall i :: 0 <= i < |cs| && cs[i].name == n ==> !rx(preferred, cs[i].path)) ==>
              Group(Resolve(cs, preferred, rx), n) == []
  {
    EmitsIff(n, cs, preferred, rx);
    EmittedGroup(cs, cs, n, preferred, rx);
    GroupSize(cs, n);
  }

  /** When every visible candidate of `todo` gets its line, the output is
      exactly the visible candidates. */
  lemma {:induction false} EmittedMatchesVisible(todo: seq<Candidate>, cs: seq<Candidate>, preferred: string, rx: Matcher)
    requires forall c :: c in todo && !Hidden(c.name) ==> Emits(c.name, cs, preferred, rx)
    ensures Emitted(todo, cs, preferred, rx) == Visible(todo)
  {
    if |todo| > 0 {
      var init, c := todo[..|todo| - 1], todo[|todo| - 1];
      assert c in todo;
      forall x | x in init && !Hidden(x.name)
        ensures Emits(x.name, cs, preferred, rx)
      {
        assert x in todo;
      }
      EmittedMatchesVisible(init, cs, preferred, rx);
    }
  }

  /** When every candidate of `todo` gets its line, the output is `todo`. */
  lemma {:induction false} EmittedAll(todo: seq<Candidate>, cs: seq<Candidate>, preferred: string, rx: Matcher)
    requires forall i :: 0 <= i < |todo| ==> Emits(todo[i].name, cs, preferred, rx)
    ensures Emitted(todo, cs, preferred, rx) == todo
  {
    if |todo| > 0 {
      var init, c := todo[..|todo| - 1], todo[|todo| - 1];
      assert forall i :: 0 <= i < |init| ==> init[i] == todo[i];
      EmittedAll(init, cs, preferred, rx);
      assert Emits(c.name, cs, preferred, rx);
      assert init + [c] == todo;
    }
  }

  /** When the pattern matches the path of every candidate, the output is
      exactly the visible candidates, in order. */
  lemma ResolveMatchAll(cs: seq<Candidate>, preferred: string, rx: Matcher)
    requires forall c :: c in cs ==> rx(preferred, c.path)
    ensures Resolve(cs, preferred, rx) == Visible(cs)
  {
    forall c | c in cs && !Hidden(c.name)
      ensures Emits(c.name, cs, preferred, rx)
    {
      var i :| 0 <= i < |cs| && cs[i] == c;
      assert rx(preferred, cs[i].path);
      EmitsIff(c.name, cs, preferred, rx);
    }
    EmittedMatchesVisible(cs, cs, preferred, rx);
  }
}
