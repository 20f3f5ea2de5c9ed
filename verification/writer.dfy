/**
 * The writer as the program runs it: a tally pass over the candidates,
 * then one pass that decides, candidate by candidate, whether to write its
 * line, scanning the same-name group until the first preferred member.
 * Each is proved to compute what the functional model of the decision
 * says. `Run` chains the walk from level 1 and the writer.
 */
module Writer {
  import opened Candidates
  import opened Resolver
  import opened Collector
  import opened Results

  /** Counts names in one pass: a name seen for the first time starts at 1,
      a name already present is bumped. */
  method Tally(cs: seq<Candidate>) returns (counter: map<string, nat>)
    ensures forall n :: n in counter <==> CountName(cs, n) > 0
    ensures forall n :: n in counter ==> counter[n] == CountName(cs, n)
    ensures forall c :: c in cs ==> c.name in counter && counter[c.name] >= 1
  {
    counter := map[];
    for i := 0 to |cs|
      invariant forall n :: n in counter <==> CountName(cs[..i], n) > 0
      invariant forall n :: n in counter ==> counter[n] == CountName(cs[..i], n)
    {
      var n := cs[i].name;
      assert cs[..i + 1] == cs[..i] + [cs[i]];
      forall m
        ensures CountName(cs[..i + 1], m) == CountName(cs[..i], m) + (if n == m then 1 else 0)
      {
        CountNameSnoc(cs[..i], cs[i], m);
      }
      if n in counter {
        counter := counter[n := counter[n] + 1];
      } else {
        counter := counter[n := 1];
      }
    }
    assert cs[..|cs|] == cs;
    forall c | c in cs
      ensures c.name in counter
    {
      var i :| 0 <= i < |cs| && cs[i] == c;
      assert Names(cs)[i] == c.name;
    }
  }

  /** One iteration of the writer's main loop: whether the current
      candidate's line is written. Empty and dot names are skipped; a name
      the tally counted once is written; otherwise the same-name group is
      scanned and the line is written as soon as a member passes the
      preferred test. */
  method WritesLine(c: Candidate, cs: seq<Candidate>, counter: map<string, nat>, preferred: string, rx: Matcher)
    returns (write: bool)
    requires c.name in counter && counter[c.name] == CountName(cs, c.name)
    ensures write <==> Emits(c.name, cs, preferred, rx)
  {
    write := false;
    if |c.name| > 0 {
      if c.name[0] == '.' {
        return;
      }
      if |c.name| > 0 && counter[c.name] == 1 {
        write := true;
      } else {
        var ambiguous := Group(cs, c.name);
        for j := 0 to |ambiguous|
          invariant !write
          invariant forall k :: 0 <= k < j ==> !Preferred(ambiguous[k], preferred, rx)
        {
          if |ambiguous[j].name| > 0 {
            if rx(preferred, ambiguous[j].path) {
              write := true;
              break;
            }
          }
        }
      }
    }
  }

  /** The alias file's lines for a candidate sequence. */
  method WriteAliases(cs: seq<Candidate>, preferred: string, rx: Matcher) returns (lines: seq<string>)
    ensures lines == Render(Resolve(cs, preferred, rx))
  {
    var counter := Tally(cs);
    lines := [];
    for i := 0 to |cs|
      invariant lines == Render(Emitted(cs[..i], cs, preferred, rx))
    {
      var c := cs[i];
      assert cs[..i + 1][..i] == cs[..i];
      assert c in cs;
      RenderConcat(Emitted(cs[..i], cs, preferred, rx), [c]);
      var write := WritesLine(c, cs, counter, preferred, rx);
      if write {
        lines := lines + [Line(c)];
      }
    }
    assert cs[..|cs|] == cs;
  }

  /** The whole program on a tree: walk from level 1, then write. */
  function Run(root: Entry, preferred: string, rx: Matcher): (r: Result<seq<string>, FsError>)
    ensures r.Failure? <==> root.File?
    ensures r.Success? ==> |r.value| <= Size(root)
  {
    match Collect(root, 1)
    case Failure(e) => Failure(e)
    case Success(cs) =>
      ResolveInOrder(cs, preferred, rx);
      Success(Render(Resolve(cs, preferred, rx)))
  }
}
