/** The default slug is the input's maximal alphanumeric runs, joined by
    single separators (src/utils/generate-slug.ts, the replace chain). */
module SlugRuns {
  import opened Slug

  lemma {:induction false} RunsAreAlnum(s: string)
    ensures forall j :: 0 <= j < |Runs(s)| ==> Runs(s)[j] != [] && AllAlnum(Runs(s)[j])
    decreases |s|
  {
    if s != [] {
      if !IsAlnum(s[0]) {
        RunsAreAlnum(s[1..]);
      } else {
        var k := AlnumPrefix(s);
        RunsAreAlnum(s[k..]);
      }
    }
  }

  lemma {:induction false} RunsSkipNonAlnum(s: string)
    ensures Runs(s) == Runs(DropNonAlnum(s))
    decreases |s|
  {
    if s != [] && !IsAlnum(s[0]) {
      RunsSkipNonAlnum(s[1..]);
    }
  }

  lemma {:induction false} NoRunsNoAlnum(s: string)
    requires Runs(s) == []
    ensures forall i :: 0 <= i < |s| ==> !IsAlnum(s[i])
    decreases |s|
  {
    if s != [] {
      assert !IsAlnum(s[0]);
      NoRunsNoAlnum(s[1..]);
      assert forall i :: 1 <= i < |s| ==> s[i] == s[1..][i - 1];
    }
  }

  /** Sequence bookkeeping, kept apart from the recursive functions. */
  lemma Prepend(empty: string, sep: string, j: string, t: string, rd: string, rs: string)
    requires empty == [] && rd == empty + j + t && rs == sep + rd
    ensures rs == sep + j + t
  {
  }

  lemma TrailOfSuffix(s: string, d: string)
    requires |d| <= |s| && d == s[|s| - |d|..] && Runs(s) == Runs(d)
    ensures Trail(s) == Trail(d)
  {
    if Runs(d) != [] {
      assert d != [];
      assert s[|s| - 1] == d[|d| - 1];
    }
  }

  /** The first pass yields the joined runs, with a separator in front when the
      text starts with other characters and one behind when it ends with them. */
  predicate JoinedRunsShape(s: string) {
    ReplaceRuns(s) == Lead(s) + Join(Runs(s)) + Trail(s)
  }

  lemma JoinedRunsNonAlnumHead(s: string)
    requires s != [] && !IsAlnum(s[0])
    requires JoinedRunsShape(DropNonAlnum(s[1..]))
    ensures JoinedRunsShape(s)
  {
    var d := DropNonAlnum(s[1..]);
    assert ReplaceRuns(s) == [Separator] + ReplaceRuns(d);
    RunsSkipNonAlnum(s);
    assert DropNonAlnum(s) == d;
    assert Runs(s) == Runs(d);
    assert Lead(d) == [];
    assert Lead(s) == [Separator];
    DropNonAlnumIsSuffix(s[1..]);
    assert s[1..][|s| - 1 - |d|..] == s[|s| - |d|..];
    TrailOfSuffix(s, d);
    var j, t := Join(Runs(d)), Trail(d);
    Prepend(Lead(d), Lead(s), j, t, ReplaceRuns(d), ReplaceRuns(s));
  }

  lemma {:induction false} AlnumPrefixOfAppend(p: string, t: string)
    requires AllAlnum(p) && (t == [] || !IsAlnum(t[0]))
    ensures AlnumPrefix(p + t) == |p|
  {
    if p != [] {
      assert (p + t)[1..] == p[1..] + t;
      AlnumPrefixOfAppend(p[1..], t);
    }
  }

  lemma RunsOfAppend(p: string, t: string)
    requires p != [] && AllAlnum(p) && (t == [] || !IsAlnum(t[0]))
    ensures Runs(p + t) == [p] + Runs(t)
  {
    AlnumPrefixOfAppend(p, t);
    assert (p + t)[..|p|] == p && (p + t)[|p|..] == t;
  }

  /** One step of the first pass on an alphanumeric head. */
  lemma ReplaceRunsAlnumHead(s: string)
    requires s != [] && IsAlnum(s[0])
    ensures ReplaceRuns(s) == [s[0]] + ReplaceRuns(s[1..])
  {
  }

  /** The first pass copies a leading run of alphanumerics unchanged. */
  lemma {:induction false} ReplaceRunsOfAppend(p: string, t: string)
    requires AllAlnum(p)
    ensures ReplaceRuns(p + t) == p + ReplaceRuns(t)
    decreases |p|
  {
    if p == [] {
      assert p + t == t;
    } else {
      var q := p[1..];
      assert AllAlnum(q) by {
        forall i | 0 <= i < |q| ensures IsAlnum(q[i]) { assert q[i] == p[i + 1]; }
      }
      ReplaceRunsOfAppend(q, t);
      assert (p + t)[0] == p[0] && (p + t)[1..] == q + t;
      ReplaceRunsAlnumHead(p + t);
      assert p == [p[0]] + q;
    }
  }

  lemma JoinCons(p: string, parts: seq<string>)
    requires parts != []
    ensures Join([p] + parts) == p + [Separator] + Join(parts)
  {
    assert ([p] + parts)[1..] == parts;
  }

  /** Sequence bookkeeping for the three cases below. */
  lemma AppendRest(rs: string, p: string, rt: string, lead: string, jt: string, tt: string, js: string, ts: string)
    requires rs == p + rt && rt == lead + jt + tt
    requires js + ts == p + lead + jt + tt
    ensures rs == [] + js + ts
  {
    assert p + (lead + jt + tt) == p + lead + jt + tt;
    assert [] + js + ts == js + ts;
  }

  lemma JoinedRunsAlnumHead(p: string, t: string)
    requires p != [] && AllAlnum(p) && (t == [] || !IsAlnum(t[0]))
    requires JoinedRunsShape(t)
    ensures JoinedRunsShape(p + t)
  {
    var s := p + t;
    RunsOfAppend(p, t);
    ReplaceRunsOfAppend(p, t);
    assert Lead(s) == [];
    var js, ts := Join(Runs(s)), Trail(s);
    var jt, tt := Join(Runs(t)), Trail(t);
    if t == [] {
      assert s == p;
      assert js == p && ts == [] && jt == [] && tt == [];
    } else {
      assert Lead(t) == [Separator];
      assert s[|s| - 1] == t[|t| - 1];
      if Runs(t) == [] {
        NoRunsNoAlnum(t);
        assert ts == [Separator] && tt == [] && jt == [];
        assert js == p;
      } else {
        assert ts == tt;
        JoinCons(p, Runs(t));
      }
    }
    AppendRest(ReplaceRuns(s), p, ReplaceRuns(t), Lead(t), jt, tt, js, ts);
  }

  lemma {:induction false} ReplaceRunsIsJoinedRuns(s: string)
    ensures JoinedRunsShape(s)
    decreases |s|
  {
    if s == [] {
    } else if !IsAlnum(s[0]) {
      ReplaceRunsIsJoinedRuns(DropNonAlnum(s[1..]));
      JoinedRunsNonAlnumHead(s);
    } else {
      var k := AlnumPrefix(s);
      var p, t := s[..k], s[k..];
      assert s == p + t;
      ReplaceRunsIsJoinedRuns(t);
      JoinedRunsAlnumHead(p, t);
    }
  }

  lemma {:induction false} JoinEnds(parts: seq<string>)
    requires parts != []
    requires forall j :: 0 <= j < |parts| ==> parts[j] != [] && AllAlnum(parts[j])
    ensures Join(parts) != [] && IsAlnum(Join(parts)[0]) && IsAlnum(Join(parts)[|Join(parts)| - 1])
  {
    if |parts| > 1 {
      JoinEnds(parts[1..]);
      var rest := Join(parts[1..]);
      assert Join(parts) == parts[0] + [Separator] + rest;
      assert Join(parts)[0] == parts[0][0];
      assert Join(parts)[|Join(parts)| - 1] == rest[|rest| - 1];
    }
  }

  lemma TrimAround(a: string, j: string, b: string)
    requires a == [] || a == [Separator]
    requires b == [] || b == [Separator]
    requires j != [] && j[0] != Separator && j[|j| - 1] != Separator
    ensures TrimSeparators(a + j + b) == j
  {
    var s := a + j + b;
    var t := if |s| > 0 && s[0] == Separator then s[1..] else s;
    assert t == j + b;
    var u := if |t| > 0 && t[|t| - 1] == Separator then t[..|t| - 1] else t;
    assert u == j;
  }

  /** For ASCII input the default slug is the input's maximal alphanumeric
      runs, in order, joined by single separators and lower-cased. */
  lemma NormalizeIsJoinedRuns(input: string)
    ensures Normalize(input, false) == Join(Runs(input))
    ensures Normalize(input, true) == ToLower(Join(Runs(input)))
  {
    var r := ReplaceRuns(input);
    ReplaceRunsShape(input);
    CollapseKeepsSingleSeparators(r);
    ReplaceRunsIsJoinedRuns(input);
    var j := Join(Runs(input));
    RunsAreAlnum(input);
    if Runs(input) != [] {
      JoinEnds(Runs(input));
      TrimAround(Lead(input), j, Trail(input));
    } else {
      assert r == Lead(input);
    }
    assert TrimSeparators(CollapseSeparators(r)) == j;
  }

}
