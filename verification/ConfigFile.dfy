/** configobj.py: the depth-marked section parser and the recursive writer. */
module ConfigFile {
  import opened Basics

  type Brackets = n: nat | n > 0 witness 1

  /** A line after the two patterns have been applied; markers have at least one bracket. */
  datatype Line = Marker(open: Brackets, close: Brackets, name: string) | KeyVal(key: string, value: string) | Unreadable

  datatype Fault = BracketsDiffer | TooNested | DuplicateSection | DuplicateKey | InvalidLine

  datatype Result<+T> = Ok(value: T) | Fail(fault: Fault)

  datatype Entry = Scalar(text: string) | Sub(id: nat)

  /** A Section object; sections refer to each other by their place in the list of all sections created. */
  datatype Section = Section(parent: nat, depth: nat, name: string,
                             scalars: seq<string>, sections: seq<string>, dict: map<string, Entry>)

  function NewSection(parent: nat, depth: nat, name: string): Section {
    Section(parent, depth, name, [], [], map[])
  }

  /** Section.__setitem__: a key already there keeps its place in the order. */
  function SetItem(s: Section, key: string, e: Entry): Section {
    var s := if key in s.dict then s else if e.Sub? then s.(sections := s.sections + [key]) else s.(scalars := s.scalars + [key]);
    s.(dict := s.dict[key := e])
  }

  /** scalars and sections list the keys of the dictionary, each once and under its kind. */
  ghost predicate Consistent(s: Section) {
    && Distinct(s.scalars) && Distinct(s.sections)
    && (forall k :: k in s.scalars <==> k in s.dict && s.dict[k].Scalar?)
    && (forall k :: k in s.sections <==> k in s.dict && s.dict[k].Sub?)
  }

  /** Overwriting a scalar by a section or a section by a scalar leaves the old kind listed. */
  lemma SetItemConsistentIff(s: Section, key: string, e: Entry)
    requires Consistent(s)
    ensures Consistent(SetItem(s, key, e)) <==> (key in s.dict ==> s.dict[key].Scalar? == e.Scalar?)
    ensures var t := SetItem(s, key, e);
            && t.scalars == s.scalars + (if key !in s.dict && e.Scalar? then [key] else [])
            && t.sections == s.sections + (if key !in s.dict && e.Sub? then [key] else [])
            && t.dict.Keys == s.dict.Keys + {key} && (forall k :: k in t.dict ==> t.dict[k] == if k == key then e else s.dict[k])
            && t.parent == s.parent && t.depth == s.depth && t.name == s.name
  {
    var t := SetItem(s, key, e);
    if key in s.dict && s.dict[key].Scalar? != e.Scalar? {
      assert key in t.scalars <==> key in s.scalars;
      assert t.dict[key] == e;
    } else {
      forall k ensures k in t.scalars <==> k in t.dict && t.dict[k].Scalar? { assert k in s.scalars <==> k in s.dict && s.dict[k].Scalar?; }
      forall k ensures k in t.sections <==> k in t.dict && t.dict[k].Sub? { assert k in s.sections <==> k in s.dict && s.dict[k].Sub?; }
    }
  }

  /** A scalar a overwritten by a section: a stands in both lists, and is only a section. */
  lemma KindChanged(s: Section, sub: nat)
    requires s.scalars == ["a"] && s.sections == [] && s.dict == map["a" := Entry.Scalar("1")]
    ensures Consistent(s)
    ensures var t := SetItem(s, "a", Entry.Sub(sub)); "a" in t.scalars && t.dict["a"].Sub? && !Consistent(t)
  {
    var t := SetItem(s, "a", Entry.Sub(sub));
    assert s.scalars[0] == "a" && t.scalars[0] == "a";
  }

  /** Every section but the first hangs under its name in a section created before it, one level up. */
  ghost predicate Valid(all: seq<Section>) {
    && |all| > 0 && all[0].parent == 0 && all[0].depth == 0
    && (forall i :: 0 < i < |all| ==> Hangs(all, i))
    && (forall i :: 0 <= i < |all| ==> Consistent(all[i]) && Holds(all, i))
  }

  predicate Hangs(all: seq<Section>, i: nat)
    requires 0 < i < |all|
  {
    var s := all[i];
    s.parent < i && s.depth == all[s.parent].depth + 1 &&
    s.name in all[s.parent].dict && all[s.parent].dict[s.name] == Sub(i)
  }

  ghost predicate Holds(all: seq<Section>, i: nat)
    requires i < |all|
  {
    forall k :: k in all[i].dict && all[i].dict[k].Sub? ==>
      var j := all[i].dict[k].id; i < j < |all| && all[j].parent == i && all[j].name == k
  }

  // ---------- the parser ----------

  /** _match_depth. */
  function MatchDepth(all: seq<Section>, i: nat, depth: nat): (j: nat)
    requires Valid(all) && i < |all| && depth <= all[i].depth
    ensures j <= i && all[j].depth == depth
    decreases i
  {
    if depth < all[i].depth then
      assert i > 0 && Hangs(all, i); MatchDepth(all, all[i].parent, depth)
    else i
  }

  function ParentFor(all: seq<Section>, this_: nat, depth: nat): (p: nat)
    requires Valid(all) && this_ < |all| && depth <= all[this_].depth + 1
    ensures p < |all|
  {
    if depth < all[this_].depth then
      var j := MatchDepth(all, this_, depth);
      (assert j > 0 ==> Hangs(all, j); all[j].parent)
    else if depth == all[this_].depth then (assert this_ > 0 ==> Hangs(all, this_); all[this_].parent)
    else this_
  }

  datatype State = State(all: seq<Section>, this_: nat)

  ghost predicate ValidState(s: State) {
    Valid(s.all) && s.this_ < |s.all|
  }

  /** A line that starts a section in p: p lists it, and it is the last one created. */
  function Attach(all: seq<Section>, p: nat, name: string): seq<Section>
    requires p < |all|
  {
    all[p := SetItem(all[p], name, Sub(|all|))] + [NewSection(p, all[p].depth + 1, name)]
  }

  lemma NewIsConsistent(parent: nat, depth: nat, name: string)
    ensures Consistent(NewSection(parent, depth, name))
  {
  }

  lemma AttachValid(all: seq<Section>, p: nat, name: string)
    requires Valid(all) && p < |all| && name !in all[p].dict
    ensures Valid(Attach(all, p, name))
  {
    hide Distinct, Consistent;
    var all' := Attach(all, p, name);
    SetItemConsistentIff(all[p], name, Sub(|all|));
    NewIsConsistent(p, all[p].depth + 1, name);
    forall i | 0 < i < |all'| ensures Hangs(all', i) {
      if i < |all| { assert Hangs(all, i); }
    }
    forall i | 0 <= i < |all'| ensures Consistent(all'[i]) && Holds(all', i) {
      if i < |all| { assert Consistent(all[i]) && Holds(all, i); }
    }
  }

  lemma SetScalarValid(all: seq<Section>, i: nat, key: string, value: string)
    requires Valid(all) && i < |all| && key !in all[i].dict
    ensures Valid(all[i := SetItem(all[i], key, Scalar(value))])
  {
    var all' := all[i := SetItem(all[i], key, Scalar(value))];
    SetItemConsistentIff(all[i], key, Scalar(value));
    forall j | 0 < j < |all'| ensures Hangs(all', j) { assert Hangs(all, j); }
    forall j | 0 <= j < |all'| ensures Consistent(all'[j]) && Holds(all', j) {
      assert Consistent(all[j]) && Holds(all, j);
    }
  }

  /** The section one level up from depth on the way from this_ to the top. */
  lemma ParentDepth(all: seq<Section>, this_: nat, depth: Brackets)
    requires Valid(all) && this_ < |all| && depth <= all[this_].depth + 1
    ensures ParentFor(all, this_, depth) == MatchDepth(all, this_, depth - 1)
    ensures all[ParentFor(all, this_, depth)].depth == depth - 1
  {
    if depth < all[this_].depth {
      MatchDepthTwice(all, this_, depth);
    } else if depth == all[this_].depth {
      assert Hangs(all, this_);
    }
  }

  lemma {:induction false} MatchDepthTwice(all: seq<Section>, i: nat, depth: Brackets)
    requires Valid(all) && i < |all| && depth <= all[i].depth
    ensures var j := MatchDepth(all, i, depth); j > 0 && all[j].parent == MatchDepth(all, i, depth - 1)
    decreases i
  {
    assert Hangs(all, i);
    if depth < all[i].depth { MatchDepthTwice(all, all[i].parent, depth); }
  }

  function Step(s: State, line: Line): (r: Result<State>)
    requires ValidState(s)
    ensures r.Ok? ==> ValidState(r.value)
  {
    match line
    case Unreadable => Fail(InvalidLine)
    case KeyVal(k, v) =>
      if k in s.all[s.this_].dict then Fail(DuplicateKey)
      else
        SetScalarValid(s.all, s.this_, k, v);
        Ok(s.(all := s.all[s.this_ := SetItem(s.all[s.this_], k, Scalar(v))]))
    case Marker(open, close, name) => if open != close then Fail(BracketsDiffer) else StepMarker(s, open, name)
  }

  function StepMarker(s: State, open: Brackets, name: string): (r: Result<State>)
    requires ValidState(s)
    ensures r.Ok? ==> ValidState(r.value)
  {
    if open > s.all[s.this_].depth + 1 then Fail(TooNested)
    else
      var p := ParentFor(s.all, s.this_, open);
      if name in s.all[p].dict then Fail(DuplicateSection)
      else
        ParentDepth(s.all, s.this_, open);
        AttachValid(s.all, p, name);
        Ok(State(s.all[p := SetItem(s.all[p], name, Sub(|s.all|))] + [NewSection(p, open, name)], |s.all|))
  }

  /** Which error a line is, told by the section being read and the one a level above the marker. */
  lemma StepFaults(s: State, line: Line)
    requires ValidState(s)
    ensures var r, here := Step(s, line), s.all[s.this_];
            match line
            case Unreadable => r == Fail(InvalidLine)
            case KeyVal(k, _) => r == Fail(DuplicateKey) <==> k in here.scalars || k in here.sections
            case Marker(open, close, name) =>
              && (r == Fail(BracketsDiffer) <==> open != close)
              && (r == Fail(TooNested) <==> open == close && open > here.depth + 1)
              && (r == Fail(DuplicateSection) <==>
                    open == close && open <= here.depth + 1 &&
                    var up := s.all[MatchDepth(s.all, s.this_, open - 1)]; name in up.scalars || name in up.sections)
    ensures Step(s, line).Fail? ==>
              Step(s, line).fault in if line.KeyVal? then {DuplicateKey} else if line.Unreadable? then {InvalidLine}
                                     else {BracketsDiffer, TooNested, DuplicateSection}
  {
    hide MatchDepth, SetItem, Distinct;
    assert Consistent(s.all[s.this_]);
    if line.Marker? && line.open <= s.all[s.this_].depth + 1 {
      ParentDepth(s.all, s.this_, line.open);
      assert Consistent(s.all[ParentFor(s.all, s.this_, line.open)]);
    }
  }

  function Start(): (s: State)
    ensures ValidState(s)
  {
    State([NewSection(0, 0, [])], 0)
  }

  /** The lines one after the other, up to the first error. */
  function Run(s: State, lines: seq<Line>): (r: Result<State>)
    requires ValidState(s)
    ensures r.Ok? ==> ValidState(r.value)
    decreases |lines|
  {
    if lines == [] then Ok(s)
    else
      match Run(s, lines[..|lines| - 1])
      case Fail(f) => Fail(f)
      case Ok(s') => Step(s', lines[|lines| - 1])
  }

  // ---------- trees and the writer ----------

  datatype Tree = Tree(scalars: seq<(string, string)>, sections: seq<Child>)

  datatype Child = Child(name: string, tree: Tree)

  function Pairs(s: Section, n: nat): (r: seq<(string, string)>)
    requires n <= |s.scalars| && forall k :: k in s.scalars ==> k in s.dict && s.dict[k].Scalar?
    ensures |r| == n && forall i :: 0 <= i < n ==> r[i] == (s.scalars[i], s.dict[s.scalars[i]].text)
  {
    if n == 0 then [] else Pairs(s, n - 1) + [(s.scalars[n - 1], s.dict[s.scalars[n - 1]].text)]
  }

  /** The tree below a section. */
  function TreeAt(all: seq<Section>, i: nat): Tree
    requires Valid(all) && i < |all|
    decreases |all| - i, 1, 0
  {
    Tree(Pairs(all[i], |all[i].scalars|), Children(all, i, |all[i].sections|))
  }

  function ChildAt(all: seq<Section>, i: nat, k: nat): (j: nat)
    requires Valid(all) && i < |all| && k < |all[i].sections|
    ensures i < j < |all| && all[j].parent == i && all[j].name == all[i].sections[k]
  {
    assert all[i].sections[k] in all[i].sections;
    assert Holds(all, i);
    all[i].dict[all[i].sections[k]].id
  }

  function Children(all: seq<Section>, i: nat, n: nat): (r: seq<Child>)
    requires Valid(all) && i < |all| && n <= |all[i].sections|
    ensures |r| == n
    decreases |all| - i, 0, n
  {
    if n == 0 then []
    else Children(all, i, n - 1) + [Child(all[i].sections[n - 1], TreeAt(all, ChildAt(all, i, n - 1)))]
  }

  function KeyVals(scalars: seq<(string, string)>): (r: seq<Line>)
    ensures |r| == |scalars|
  {
    if scalars == [] then []
    else KeyVals(scalars[..|scalars| - 1]) + [KeyVal(scalars[|scalars| - 1].0, scalars[|scalars| - 1].1)]
  }

  /** write: the scalars of the section, then each of its sections behind a marker of its depth. */
  function Written(t: Tree, depth: nat): seq<Line>
    decreases t
  {
    KeyVals(t.scalars) + WrittenSections(t.sections, depth)
  }

  function WrittenSections(ss: seq<Child>, depth: nat): seq<Line>
    decreases ss
  {
    if ss == [] then []
    else
      var last := ss[|ss| - 1];
      WrittenSections(ss[..|ss| - 1], depth) + ([Marker(depth + 1, depth + 1, last.name)] + Written(last.tree, depth + 1))
  }

  /** A key or section name is used once in its section. */
  predicate Good(t: Tree)
    decreases t
  {
    Distinct(Names(t.scalars) + ChildNames(t.sections)) && forall i :: 0 <= i < |t.sections| ==> Good(t.sections[i].tree)
  }

  function Names(ps: seq<(string, string)>): (r: seq<string>)
    ensures |r| == |ps| && forall i :: 0 <= i < |ps| ==> r[i] == ps[i].0
  {
    seq(|ps|, i requires 0 <= i < |ps| => ps[i].0)
  }

  function ChildNames(ps: seq<Child>): (r: seq<string>)
    ensures |r| == |ps| && forall i :: 0 <= i < |ps| ==> r[i] == ps[i].name
  {
    seq(|ps|, i requires 0 <= i < |ps| => ps[i].name)
  }

  // ---------- reading what was written ----------

  lemma {:induction false} RunConcat(s: State, a: seq<Line>, b: seq<Line>)
    requires ValidState(s)
    ensures Run(s, a + b) == match Run(s, a) case Ok(s') => Run(s', b) case Fail(f) => Fail(f)
    decreases |b|
  {
    hide Step, ValidState;
    if b == [] {
      assert a + b == a;
    } else {
      assert (a + b)[..|a + b| - 1] == a + b[..|b| - 1];
      RunConcat(s, a, b[..|b| - 1]);
    }
  }

  /** Sections from lo on are as they were, so the trees below them are. */
  predicate SameFrom(all: seq<Section>, all': seq<Section>, lo: nat) {
    |all| <= |all'| && forall j :: lo <= j < |all| ==> all'[j] == all[j]
  }

  lemma TreeFrame(all: seq<Section>, all': seq<Section>, i: nat)
    requires Valid(all) && Valid(all') && i < |all| && SameFrom(all, all', i)
    ensures TreeAt(all', i) == TreeAt(all, i)
    decreases |all| - i, 1, 0
  {
    ChildrenFrame(all, all', i, |all[i].sections|);
  }

  /** i keeps its first n sections, and what is below them. */
  lemma {:induction false} ChildrenFrame(all: seq<Section>, all': seq<Section>, i: nat, n: nat)
    requires Valid(all) && Valid(all') && i < |all| && SameFrom(all, all', i + 1)
    requires n <= |all[i].sections| && n <= |all'[i].sections|
    requires forall k :: 0 <= k < n ==> all'[i].sections[k] == all[i].sections[k]
    requires forall k :: 0 <= k < n ==> ChildAt(all', i, k) == ChildAt(all, i, k)
    ensures Children(all', i, n) == Children(all, i, n)
    decreases |all| - i, 0, n
  {
    hide TreeAt, Valid, Pairs;
    if n > 0 {
      ChildrenFrame(all, all', i, n - 1);
      TreeFrame(all, all', ChildAt(all, i, n - 1));
    }
  }

  /** What a section looks like once the pairs have been read into it. */
  ghost predicate Filled(s: Section, was: Section, ps: seq<(string, string)>) {
    && s.parent == was.parent && s.depth == was.depth && s.name == was.name
    && s.scalars == Names(ps)
    && (forall i :: 0 <= i < |ps| ==> ps[i].0 in s.dict && s.dict[ps[i].0] == Scalar(ps[i].1))
  }

  lemma FilledPairs(s: Section, was: Section, ps: seq<(string, string)>)
    requires Filled(s, was, ps) && Consistent(s)
    ensures Pairs(s, |s.scalars|) == ps
  {
    forall i | 0 <= i < |ps| ensures Pairs(s, |s.scalars|)[i] == ps[i] {
      assert s.scalars[i] == ps[i].0;
    }
  }

  lemma KeyValsSnoc(ps: seq<(string, string)>, n: nat)
    requires 0 < n <= |ps|
    ensures var lines := KeyVals(ps[..n]);
            && lines != [] && lines[|lines| - 1] == KeyVal(ps[n - 1].0, ps[n - 1].1)
            && lines[..|lines| - 1] == KeyVals(ps[..n - 1])
  {
    assert ps[..n][..n - 1] == ps[..n - 1];
  }

  /** One more pair in a section that holds the ones before it. */
  lemma FillOne(now: Section, was: Section, ps: seq<(string, string)>, n: nat)
    requires Consistent(now) && 0 < n <= |ps| && Distinct(Names(ps))
    requires Filled(now, was, ps[..n - 1]) && now.sections == []
    ensures ps[n - 1].0 !in now.dict
    ensures var then_ := SetItem(now, ps[n - 1].0, Scalar(ps[n - 1].1));
            Filled(then_, was, ps[..n]) && then_.sections == []
  {
    var key := ps[n - 1].0;
    assert key !in now.sections;
    assert Names(ps)[n - 1] == key;
    forall i | 0 <= i < n - 1 ensures now.scalars[i] == ps[i].0 != key {
      assert ps[..n - 1][i] == ps[i];
      assert Names(ps)[i] != Names(ps)[n - 1];
    }
    assert key !in now.scalars;
    var then_ := SetItem(now, key, Scalar(ps[n - 1].1));
    assert then_.scalars == Names(ps[..n]);
    forall i | 0 <= i < n
      ensures ps[..n][i].0 in then_.dict && then_.dict[ps[..n][i].0] == Scalar(ps[..n][i].1)
    {
      if i < n - 1 { assert ps[..n - 1][i] == ps[i]; }
    }
  }

  lemma {:induction false} RunScalars(s: State, ps: seq<(string, string)>, n: nat)
    requires ValidState(s) && n <= |ps| && Distinct(Names(ps))
    requires s.all[s.this_].dict == map[] && s.all[s.this_].scalars == [] && s.all[s.this_].sections == []
    ensures var r := Run(s, KeyVals(ps[..n]));
            && r.Ok? && r.value.this_ == s.this_
            && r.value.all == s.all[s.this_ := r.value.all[s.this_]]
            && Filled(r.value.all[s.this_], s.all[s.this_], ps[..n])
            && r.value.all[s.this_].sections == []
  {
    hide SetItem, Consistent, Holds, Distinct;
    if n == 0 {
      assert ps[..n] == [];
    } else {
      RunScalars(s, ps, n - 1);
      var before := Run(s, KeyVals(ps[..n - 1])).value;
      KeyValsSnoc(ps, n);
      FillOne(before.all[s.this_], s.all[s.this_], ps, n);
    }
  }

  /** Once the lines written for t have been read into the new section i: the parser is at the last section,
      below i, and nothing before i has changed. */
  ghost predicate Grown(s: State, i: nat, was: State) {
    && ValidState(s) && i < |was.all| <= |s.all| && s.this_ == |s.all| - 1
    && (forall j :: 0 <= j < i ==> s.all[j] == was.all[j])
    && s.all[i].parent == was.all[i].parent && s.all[i].depth == was.all[i].depth && s.all[i].name == was.all[i].name
    && s.all[s.this_].depth >= s.all[i].depth && MatchDepth(s.all, s.this_, s.all[i].depth) == i
  }

  ghost predicate Fresh(s: State) {
    && ValidState(s) && s.this_ == |s.all| - 1
    && s.all[s.this_].dict == map[] && s.all[s.this_].scalars == [] && s.all[s.this_].sections == []
  }

  lemma RunWritten(s: State, t: Tree)
    requires Fresh(s) && Good(t)
    ensures var r := Run(s, Written(t, s.all[s.this_].depth));
            r.Ok? && Grown(r.value, s.this_, s) && TreeAt(r.value.all, s.this_) == t
    decreases t, |t.sections| + 1
  {
    var i, d := s.this_, s.all[s.this_].depth;
    GoodParts(t);
    RunScalars(s, t.scalars, |t.scalars|);
    assert t.scalars[..|t.scalars|] == t.scalars;
    assert t.sections[..|t.sections|] == t.sections;
    RunConcat(s, KeyVals(t.scalars), WrittenSections(t.sections, d));
    var s1 := Run(s, KeyVals(t.scalars)).value;
    RunSections(s, s1, t, |t.sections|);
    var s2 := Run(s1, WrittenSections(t.sections, d)).value;
    FilledPairs(s2.all[i], s.all[i], t.scalars);
  }

  lemma GoodParts(t: Tree)
    requires Good(t)
    ensures Distinct(Names(t.scalars)) && Distinct(ChildNames(t.sections))
    ensures forall i, j :: 0 <= i < |t.scalars| && 0 <= j < |t.sections| ==> t.scalars[i].0 != t.sections[j].name
  {
    var both := Names(t.scalars) + ChildNames(t.sections);
    var m := |t.scalars|;
    forall i, j | 0 <= i < j < |t.sections| ensures ChildNames(t.sections)[i] != ChildNames(t.sections)[j] {
      assert both[m + i] != both[m + j];
    }
    forall i, j | 0 <= i < |t.scalars| && 0 <= j < |t.sections| ensures t.scalars[i].0 != t.sections[j].name {
      assert both[i] != both[m + j];
    }
    forall i, j | 0 <= i < j < m ensures Names(t.scalars)[i] != Names(t.scalars)[j] { assert both[i] != both[j]; }
  }

  /** The n-th section name is not yet used in the section being read. */
  lemma NewName(was: Section, now: Section, t: Tree, n: nat)
    requires Good(t) && 0 < n <= |t.sections| && Consistent(now)
    requires Filled(now, was, t.scalars) && now.sections == ChildNames(t.sections[..n - 1])
    ensures t.sections[n - 1].name !in now.dict
  {
    GoodParts(t);
    assert ChildNames(t.sections)[n - 1] == t.sections[n - 1].name;
  }

  lemma RunOne(s: State, line: Line)
    requires ValidState(s)
    ensures Run(s, [line]) == Step(s, line)
  {
    assert [line][..0] == [];
  }

  /** A marker one deeper than section i starts a section in it, however deep the parser has got below i. */
  lemma ReadMarker(s: State, before: State, i: nat, name: string)
    requires Grown(before, i, s) && name !in before.all[i].dict
    ensures var d := before.all[i].depth;
            var r := Run(before, [Marker(d + 1, d + 1, name)]);
            r == Ok(State(Attach(before.all, i, name), |before.all|)) && Fresh(r.value)
  {
    hide Holds, Hangs, Consistent, Run, ParentFor, SetItem;
    var d := before.all[i].depth;
    RunOne(before, Marker(d + 1, d + 1, name));
    ParentDepth(before.all, before.this_, d + 1);
  }

  lemma StillBelow(s: State, before: State, after: State, i: nat, name: string)
    requires Grown(before, i, s) && name !in before.all[i].dict
    requires Valid(Attach(before.all, i, name))
    requires Grown(after, |before.all|, State(Attach(before.all, i, name), |before.all|))
    ensures Grown(after, i, s)
  {
    hide Consistent, Holds;
    var c := |before.all|;
    assert after.all[c].parent == i;
    MatchDepthTwice(after.all, after.this_, after.all[c].depth);
    assert Hangs(after.all, c);
    forall j | 0 <= j < i ensures after.all[j] == s.all[j] {
      assert Attach(before.all, i, name)[j] == before.all[j];
    }
    assert after.all[i] == Attach(before.all, i, name)[i];
  }

  /** Behind the section c just read into i, the parser is again below i, and i has it as its last section. */
  lemma Closed(all: seq<Section>, all': seq<Section>, i: nat, kid: Child, kids: seq<Child>)
    requires Valid(all) && Valid(all') && i < |all| < |all'| && kid.name !in all[i].dict
    requires ChildNames(kids) == all[i].sections && Children(all, i, |kids|) == kids
    requires all'[i] == SetItem(all[i], kid.name, Sub(|all|))
    requires forall j :: i < j < |all| ==> all'[j] == all[j]
    requires TreeAt(all', |all|) == kid.tree
    ensures Children(all', i, |kids| + 1) == kids + [kid]
  {
    hide TreeAt, Hangs, Holds, Distinct;
    forall k | 0 <= k < |kids| ensures ChildAt(all', i, k) == ChildAt(all, i, k) {
      assert all[i].sections[k] in all[i].sections;
      assert Consistent(all[i]);
    }
    ChildrenFrame(all, all', i, |kids|);
    assert ChildAt(all', i, |kids|) == |all|;
  }

  /** The section s was at holds its scalars and the first n of its sections. */
  ghost predicate SectionsRead(s: State, now: State, t: Tree, n: nat)
    requires Fresh(s) && n <= |t.sections|
  {
    && Grown(now, s.this_, s)
    && Filled(now.all[s.this_], s.all[s.this_], t.scalars)
    && now.all[s.this_].sections == ChildNames(t.sections[..n])
    && Children(now.all, s.this_, n) == t.sections[..n]
  }

  ghost predicate ScalarsRead(s: State, s1: State, t: Tree)
    requires Fresh(s)
  {
    && ValidState(s1) && s1.this_ == s.this_ && s1.all == s.all[s.this_ := s1.all[s.this_]]
    && Filled(s1.all[s.this_], s.all[s.this_], t.scalars) && s1.all[s.this_].sections == []
  }

  lemma NoSectionsYet(s: State, s1: State, t: Tree)
    requires Fresh(s) && ScalarsRead(s, s1, t)
    ensures SectionsRead(s, s1, t, 0)
  {
    assert t.sections[..0] == [] && ChildNames([]) == [];
  }

  lemma {:induction false} RunSections(s: State, s1: State, t: Tree, n: nat)
    requires Fresh(s) && Good(t) && n <= |t.sections| && ScalarsRead(s, s1, t)
    ensures var r := Run(s1, WrittenSections(t.sections[..n], s.all[s.this_].depth));
            r.Ok? && SectionsRead(s, r.value, t, n)
    decreases t, n
  {
    hide TreeAt, Children, Step, Filled, SetItem, Consistent, Hangs, Holds, Written;
    var i, d := s.this_, s.all[s.this_].depth;
    if n == 0 {
      assert t.sections[..n] == [];
      NoSectionsYet(s, s1, t);
    } else {
      RunSections(s, s1, t, n - 1);
      var kid := t.sections[n - 1];
      WrittenSnoc(t.sections, n, d);
      var before := Run(s1, WrittenSections(t.sections[..n - 1], d)).value;
      RunConcat(s1, WrittenSections(t.sections[..n - 1], d), [Marker(d + 1, d + 1, kid.name)] + Written(kid.tree, d + 1));
      ReadNext(s, before, t, n);
    }
  }

  /** The marker and the lines of the n-th section take the parser on. */
  ghost predicate ReadsOn(s: State, before: State, t: Tree, n: nat)
    requires Fresh(s) && 0 < n <= |t.sections| && ValidState(before)
  {
    var kid, d := t.sections[n - 1], s.all[s.this_].depth;
    var r := Run(before, [Marker(d + 1, d + 1, kid.name)] + Written(kid.tree, d + 1));
    r.Ok? && SectionsRead(s, r.value, t, n)
  }

  lemma ReadNext(s: State, before: State, t: Tree, n: nat)
    requires Fresh(s) && 0 < n <= |t.sections| && ValidState(before)
    requires Good(t) && SectionsRead(s, before, t, n - 1)
    ensures ReadsOn(s, before, t, n)
    decreases t, n, 0
  {
    hide TreeAt, Children, Step, Filled, SetItem, Consistent, Hangs, Holds, Written, Run, MatchDepth;
    var i, kid := s.this_, t.sections[n - 1];
    var kids := t.sections[..n - 1];
    assert Consistent(before.all[i]);
    NewName(s.all[i], before.all[i], t, n);
    ReadChild(s, before, i, kid, kids);
    FilledStays(before.all[i], s.all[i], t.scalars, kid.name, |before.all|);
    assert t.sections[..n] == kids + [kid] && ChildNames(t.sections[..n]) == ChildNames(kids) + [kid.name];
  }

  lemma WrittenSnoc(ss: seq<Child>, n: nat, d: nat)
    requires 0 < n <= |ss|
    ensures WrittenSections(ss[..n], d) ==
            WrittenSections(ss[..n - 1], d) + ([Marker(d + 1, d + 1, ss[n - 1].name)] + Written(ss[n - 1].tree, d + 1))
    ensures ss[..n] == ss[..n - 1] + [ss[n - 1]]
    ensures ChildNames(ss[..n]) == ChildNames(ss[..n - 1]) + [ss[n - 1].name]
  {
    assert ss[..n][..n - 1] == ss[..n - 1];
  }

  lemma FilledStays(now: Section, was: Section, ps: seq<(string, string)>, name: string, c: nat)
    requires Filled(now, was, ps) && name !in now.dict
    ensures Filled(SetItem(now, name, Sub(c)), was, ps)
    ensures SetItem(now, name, Sub(c)).sections == now.sections + [name]
  {
  }

  lemma ReadChild(s: State, before: State, i: nat, kid: Child, kids: seq<Child>)
    requires Grown(before, i, s) && kid.name !in before.all[i].dict && Good(kid.tree)
    requires ChildNames(kids) == before.all[i].sections && Children(before.all, i, |kids|) == kids
    ensures var d := before.all[i].depth;
            var r := Run(before, [Marker(d + 1, d + 1, kid.name)] + Written(kid.tree, d + 1));
            && r.Ok? && Grown(r.value, i, s)
            && r.value.all[i] == SetItem(before.all[i], kid.name, Sub(|before.all|))
            && Children(r.value.all, i, |kids| + 1) == kids + [kid]
    decreases kid.tree, |kid.tree.sections| + 2
  {
    hide TreeAt, Children, Consistent, Hangs, Holds, Written, Step, Good;
    var d := before.all[i].depth;
    var head := [Marker(d + 1, d + 1, kid.name)];
    RunConcat(before, head, Written(kid.tree, d + 1));
    ReadMarker(s, before, i, kid.name);
    var begun := State(Attach(before.all, i, kid.name), |before.all|);
    assert Run(before, head) == Ok(begun);
    RunWritten(begun, kid.tree);
    var after := Run(begun, Written(kid.tree, d + 1)).value;
    StillBelow(s, before, after, i, kid.name);
    assert after.all[i] == begun.all[i];
    Closed(before.all, after.all, i, kid, kids);
  }

  // ---------- writing what was read ----------

  /** The section below i that was created last: the last section of the last section ... */
  function LastBelow(all: seq<Section>, i: nat): (j: nat)
    requires Valid(all) && i < |all|
    ensures i <= j < |all|
    decreases |all| - i
  {
    if all[i].sections == [] then i else LastBelow(all, ChildAt(all, i, |all[i].sections| - 1))
  }

  /** j is l or a section that l is in. */
  ghost predicate Above(all: seq<Section>, j: nat, l: nat)
    requires Valid(all) && j < |all| && l < |all|
  {
    all[j].depth <= all[l].depth && MatchDepth(all, l, all[j].depth) == j
  }

  lemma ChildHangs(all: seq<Section>, i: nat, k: nat)
    requires Valid(all) && i < |all| && k < |all[i].sections|
    ensures var j := ChildAt(all, i, k); all[j].depth == all[i].depth + 1 && all[j].parent == i
  {
    assert Hangs(all, ChildAt(all, i, k));
  }

  lemma {:induction false} MatchDepthCompose(all: seq<Section>, l: nat, d: nat, e: nat)
    requires Valid(all) && l < |all| && e <= d <= all[l].depth
    ensures MatchDepth(all, MatchDepth(all, l, d), e) == MatchDepth(all, l, e)
    decreases l
  {
    if d < all[l].depth {
      assert Hangs(all, l);
      MatchDepthCompose(all, all[l].parent, d, e);
    }
  }

  /** A section that l is not in has no part that l is in. */
  lemma ChildNotAbove(all: seq<Section>, i: nat, k: nat, l: nat)
    requires Valid(all) && i < |all| && l < |all| && k < |all[i].sections| && !Above(all, i, l)
    ensures !Above(all, ChildAt(all, i, k), l)
  {
    var j := ChildAt(all, i, k);
    ChildHangs(all, i, k);
    if Above(all, j, l) {
      MatchDepthTwice(all, l, all[j].depth);
      assert false;
    }
  }

  predicate SameBut(all: seq<Section>, all': seq<Section>, p: nat) {
    |all| <= |all'| && forall j :: 0 <= j < |all| && j != p ==> all'[j] == all[j]
  }

  lemma TreeAway(all: seq<Section>, all': seq<Section>, i: nat, p: nat)
    requires Valid(all) && Valid(all') && i < |all| && p < |all| && SameBut(all, all', p) && !Above(all, i, p)
    ensures TreeAt(all', i) == TreeAt(all, i)
    decreases |all| - i, 1, 0
  {
    forall k | 0 <= k < |all[i].sections| ensures !Above(all, ChildAt(all, i, k), p) { ChildNotAbove(all, i, k, p); }
    ChildrenAway(all, all', i, |all[i].sections|, p);
  }

  lemma {:induction false} ChildrenAway(all: seq<Section>, all': seq<Section>, i: nat, n: nat, p: nat)
    requires Valid(all) && Valid(all') && i < |all| && p < |all| && SameBut(all, all', p)
    requires n <= |all[i].sections| && n <= |all'[i].sections|
    requires forall k :: 0 <= k < n ==> !Above(all, ChildAt(all, i, k), p)
    requires forall k :: 0 <= k < n ==> all'[i].sections[k] == all[i].sections[k]
    requires forall k :: 0 <= k < n ==> ChildAt(all', i, k) == ChildAt(all, i, k)
    ensures Children(all', i, n) == Children(all, i, n)
    decreases |all| - i, 0, n
  {
    hide TreeAt, Valid, Pairs, Above;
    if n > 0 {
      ChildrenAway(all, all', i, n - 1, p);
      TreeAway(all, all', ChildAt(all, i, n - 1), p);
    }
  }

  lemma {:induction false} LastAbove(all: seq<Section>, i: nat)
    requires Valid(all) && i < |all|
    ensures Above(all, i, LastBelow(all, i))
    decreases |all| - i
  {
    var n := |all[i].sections|;
    if n > 0 {
      ChildHangs(all, i, n - 1);
      var c := ChildAt(all, i, n - 1);
      LastAbove(all, c);
      MatchDepthTwice(all, LastBelow(all, i), all[c].depth);
    }
  }

  /** The earlier sections of i are not above anything in its last section. */
  lemma EarlierAway(all: seq<Section>, i: nat, p: nat)
    requires Valid(all) && i < |all| && p < |all| && all[i].sections != []
    requires Above(all, ChildAt(all, i, |all[i].sections| - 1), p)
    ensures forall k :: 0 <= k < |all[i].sections| - 1 ==> !Above(all, ChildAt(all, i, k), p)
  {
    var n := |all[i].sections|;
    ChildHangs(all, i, n - 1);
    assert Consistent(all[i]);
    forall k | 0 <= k < n - 1 ensures !Above(all, ChildAt(all, i, k), p) {
      ChildHangs(all, i, k);
      assert all[i].sections[k] != all[i].sections[n - 1];
    }
  }

  /** From i towards p, when both are on the way to the last section. */
  lemma DownToward(all: seq<Section>, i: nat, p: nat)
    requires Valid(all) && i < |all| && p < |all| && i != p
    requires all[i].depth <= all[p].depth && Above(all, p, LastBelow(all, i))
    ensures all[i].sections != []
    ensures var c := ChildAt(all, i, |all[i].sections| - 1);
            && all[c].depth == all[i].depth + 1 <= all[p].depth
            && LastBelow(all, c) == LastBelow(all, i) && Above(all, c, p)
  {
    hide Consistent, Holds, Hangs;
    LastAbove(all, i);
    var n := |all[i].sections|;
    assert n > 0;
    var c := ChildAt(all, i, n - 1);
    ChildHangs(all, i, n - 1);
    LastAbove(all, c);
    MatchDepthCompose(all, LastBelow(all, i), all[p].depth, all[c].depth);
  }

  /** The lines of a section that has sections end with those of the last one. */
  function BeforeLast(all: seq<Section>, i: nat): seq<Line>
    requires Valid(all) && i < |all| && all[i].sections != []
  {
    var n := |all[i].sections|;
    var d := all[i].depth;
    KeyVals(Pairs(all[i], |all[i].scalars|)) +
    (WrittenSections(Children(all, i, n - 1), d) + [Marker(d + 1, d + 1, all[i].sections[n - 1])])
  }

  lemma WrittenLast(all: seq<Section>, i: nat)
    requires Valid(all) && i < |all| && all[i].sections != []
    ensures var c := ChildAt(all, i, |all[i].sections| - 1);
            Written(TreeAt(all, i), all[i].depth) == BeforeLast(all, i) + Written(TreeAt(all, c), all[i].depth + 1)
  {
    hide Holds, Hangs, Pairs, KeyVals;
    var n := |all[i].sections|;
    var d := all[i].depth;
    var c := ChildAt(all, i, n - 1);
    var kids := Children(all, i, n);
    assert kids[..n - 1] == Children(all, i, n - 1);
    Regroup(KeyVals(Pairs(all[i], |all[i].scalars|)), WrittenSections(kids[..n - 1], d),
            [Marker(d + 1, d + 1, all[i].sections[n - 1])], Written(TreeAt(all, c), d + 1));
  }

  lemma Regroup<T>(a: seq<T>, b: seq<T>, c: seq<T>, d: seq<T>)
    ensures a + (b + (c + d)) == a + (b + c) + d
  {
  }

  /** What is written for a section on the way from i to the last section ends where that section's lines end:
      lines added to p, which the last section is in, are lines added to i. */
  lemma {:induction false} Grafted(all: seq<Section>, all': seq<Section>, i: nat, p: nat, extra: seq<Line>)
    requires Valid(all) && Valid(all') && SameBut(all, all', p) && i < |all| && p < |all|
    requires all'[p].depth == all[p].depth && all[i].depth <= all[p].depth && Above(all, p, LastBelow(all, i))
    requires Written(TreeAt(all', p), all[p].depth) == Written(TreeAt(all, p), all[p].depth) + extra
    ensures Written(TreeAt(all', i), all[i].depth) == Written(TreeAt(all, i), all[i].depth) + extra
    decreases |all| - i
  {
    hide Consistent, Holds, Hangs, TreeAt, Children, Written, Pairs, KeyVals, Above, MatchDepth;
    if i == p { return; }
    var n := |all[i].sections|;
    DownToward(all, i, p);
    var c := ChildAt(all, i, n - 1);
    Grafted(all, all', c, p, extra);
    EarlierAway(all, i, p);
    ChildrenAway(all, all', i, n - 1, p);
    WrittenLast(all, i);
    WrittenLast(all', i);
    assert BeforeLast(all', i) == BeforeLast(all, i);
    assert BeforeLast(all, i) + (Written(TreeAt(all, c), all[i].depth + 1) + extra) ==
           BeforeLast(all, i) + Written(TreeAt(all, c), all[i].depth + 1) + extra;
  }

  lemma KeyAdded(all: seq<Section>, l: nat, key: string, value: string)
    requires Valid(all) && l < |all| && key !in all[l].dict && all[l].sections == []
    ensures var all' := all[l := SetItem(all[l], key, Scalar(value))];
            Valid(all') && Written(TreeAt(all', l), all[l].depth) == Written(TreeAt(all, l), all[l].depth) + [KeyVal(key, value)]
  {
    hide Holds, Hangs, Consistent, Pairs, KeyVals;
    SetScalarValid(all, l, key, value);
    var all' := all[l := SetItem(all[l], key, Scalar(value))];
    assert Consistent(all[l]) && Consistent(all'[l]);
    OnePairMore(all[l], key, value);
    var before, after := TreeAt(all, l), TreeAt(all[l := SetItem(all[l], key, Scalar(value))], l);
    assert before.sections == [] && after.sections == [];
  }

  lemma OnePairMore(s: Section, key: string, value: string)
    requires Consistent(s) && key !in s.dict && Consistent(SetItem(s, key, Scalar(value)))
    ensures var s' := SetItem(s, key, Scalar(value));
            && |s'.scalars| == |s.scalars| + 1 && s'.sections == s.sections
            && KeyVals(Pairs(s', |s'.scalars|)) == KeyVals(Pairs(s, |s.scalars|)) + [KeyVal(key, value)]
  {
    var s', n := SetItem(s, key, Scalar(value)), |s.scalars|;
    forall k | 0 <= k < n ensures s.scalars[k] in s'.dict && s'.dict[s.scalars[k]] == s.dict[s.scalars[k]] {
      assert s.scalars[k] in s.scalars;
    }
    assert Pairs(s', n + 1)[..n] == Pairs(s, n);
    assert Pairs(s', n + 1)[n] == (key, value);
  }

  lemma {:induction false} SectionAdded(all: seq<Section>, p: nat, name: string)
    requires Valid(all) && p < |all| && name !in all[p].dict
    ensures var all' := Attach(all, p, name);
            Valid(all') && Written(TreeAt(all', p), all[p].depth) ==
              Written(TreeAt(all, p), all[p].depth) + [Marker(all[p].depth + 1, all[p].depth + 1, name)]
  {
    hide Holds, Hangs, Distinct, Pairs, KeyVals, Above, MatchDepth, WrittenSections, ChildAt;
    AttachValid(all, p, name);
    var all' := Attach(all, p, name);
    var n, d := |all[p].sections|, all[p].depth;
    OldSections(all, p, name);
    ChildrenAway(all, all', p, n, p);
    WrittenLast(all', p);
    NewEmpty(all, p, name);
    assert Consistent(all[p]) && Consistent(all'[p]);
    SamePairs(all[p], all'[p]);
    var kv := KeyVals(Pairs(all[p], |all[p].scalars|));
    Regroup(kv, WrittenSections(Children(all, p, n), d), [Marker(d + 1, d + 1, name)], []);
    SplitOff(kv, WrittenSections(Children(all, p, n), d), [Marker(d + 1, d + 1, name)]);
  }

  lemma SplitOff<T>(a: seq<T>, b: seq<T>, c: seq<T>)
    ensures a + (b + c) + [] == a + b + c
  {
  }

  lemma OldSections(all: seq<Section>, p: nat, name: string)
    requires Valid(all) && p < |all| && name !in all[p].dict && Valid(Attach(all, p, name))
    ensures forall k :: 0 <= k < |all[p].sections| ==> !Above(all, ChildAt(all, p, k), p)
    ensures forall k :: 0 <= k < |all[p].sections| ==> ChildAt(Attach(all, p, name), p, k) == ChildAt(all, p, k)
  {
    forall k | 0 <= k < |all[p].sections|
      ensures !Above(all, ChildAt(all, p, k), p) && ChildAt(Attach(all, p, name), p, k) == ChildAt(all, p, k)
    {
      ChildHangs(all, p, k);
      assert all[p].sections[k] in all[p].sections;
    }
  }

  lemma NewEmpty(all: seq<Section>, p: nat, name: string)
    requires Valid(all) && p < |all| && name !in all[p].dict && Valid(Attach(all, p, name))
    ensures ChildAt(Attach(all, p, name), p, |all[p].sections|) == |all|
    ensures Written(TreeAt(Attach(all, p, name), |all|), all[p].depth + 1) == []
  {
    var t := TreeAt(Attach(all, p, name), |all|);
    assert t == Tree([], []);
  }

  lemma SamePairs(s: Section, s': Section)
    requires Consistent(s) && Consistent(s') && s.scalars == s'.scalars
    requires forall k :: k in s.dict ==> k in s'.dict && s'.dict[k] == s.dict[k]
    ensures Pairs(s', |s.scalars|) == Pairs(s, |s.scalars|)
  {
    forall k | 0 <= k < |s.scalars| ensures Pairs(s', |s.scalars|)[k] == Pairs(s, |s.scalars|)[k] {
      assert s.scalars[k] in s.scalars;
    }
  }

  lemma {:induction false} LastAfterKey(all: seq<Section>, i: nat, l: nat, key: string, value: string)
    requires Valid(all) && i < |all| && l < |all| && key !in all[l].dict
    ensures var all' := all[l := SetItem(all[l], key, Scalar(value))]; Valid(all') && LastBelow(all', i) == LastBelow(all, i)
    decreases |all| - i
  {
    hide Valid, SetItem, ChildAt;
    SetScalarValid(all, l, key, value);
    var n := |all[i].sections|;
    SectionsAfterKey(all, i, l, key, value);
    if n > 0 { LastAfterKey(all, ChildAt(all, i, n - 1), l, key, value); }
  }

  /** Assigning a scalar leaves every section where it hangs. */
  lemma SectionsAfterKey(all: seq<Section>, i: nat, l: nat, key: string, value: string)
    requires Valid(all) && i < |all| && l < |all| && key !in all[l].dict
    ensures var all' := all[l := SetItem(all[l], key, Scalar(value))];
            && Valid(all') && all'[i].sections == all[i].sections
            && forall k :: 0 <= k < |all[i].sections| ==> ChildAt(all', i, k) == ChildAt(all, i, k)
  {
    hide Hangs, Holds, Distinct;
    SetScalarValid(all, l, key, value);
    var all' := all[l := SetItem(all[l], key, Scalar(value))];
    forall k | 0 <= k < |all[i].sections| ensures ChildAt(all', i, k) == ChildAt(all, i, k) {
      assert all[i].sections[k] in all[i].sections && Consistent(all[i]);
    }
  }

  lemma {:induction false} LastAfterMarker(all: seq<Section>, i: nat, p: nat, name: string)
    requires Valid(all) && i < |all| && p < |all| && name !in all[p].dict
    requires all[i].depth <= all[p].depth && Above(all, p, LastBelow(all, i))
    ensures Valid(Attach(all, p, name)) && LastBelow(Attach(all, p, name), i) == |all|
    decreases |all| - i
  {
    AttachValid(all, p, name);
    if i != p {
      DownToward(all, i, p);
      LastAfterMarker(all, ChildAt(all, i, |all[i].sections| - 1), p, name);
    }
  }

  /** The parser is at the section created last, and what write gives for the whole is what has been read. */
  ghost predicate WritesBack(s: State, lines: seq<Line>) {
    && ValidState(s) && s.this_ == |s.all| - 1 && LastBelow(s.all, 0) == s.this_
    && Written(TreeAt(s.all, 0), 0) == lines
  }

  lemma StepWritesBack(s: State, lines: seq<Line>, line: Line)
    requires WritesBack(s, lines) && Step(s, line).Ok?
    ensures WritesBack(Step(s, line).value, lines + [line])
  {
    hide Consistent, Holds, Hangs, TreeAt, Written;
    LastAbove(s.all, 0);
    match line
    case KeyVal(k, v) =>
      LastIsLeaf(s.all, 0);
      KeyAdded(s.all, s.this_, k, v);
      var all' := s.all[s.this_ := SetItem(s.all[s.this_], k, Scalar(v))];
      Grafted(s.all, all', 0, s.this_, [line]);
      LastAfterKey(s.all, 0, s.this_, k, v);
    case Marker(open, _, name) =>
      var p := ParentFor(s.all, s.this_, open);
      ParentDepth(s.all, s.this_, open);
      SectionAdded(s.all, p, name);
      Grafted(s.all, Attach(s.all, p, name), 0, p, [line]);
      LastAfterMarker(s.all, 0, p, name);
  }

  lemma {:induction false} LastIsLeaf(all: seq<Section>, i: nat)
    requires Valid(all) && i < |all|
    ensures all[LastBelow(all, i)].sections == []
    decreases |all| - i
  {
    if all[i].sections != [] { LastIsLeaf(all, ChildAt(all, i, |all[i].sections| - 1)); }
  }

  lemma StartWritesBack()
    ensures WritesBack(Start(), [])
  {
    assert TreeAt(Start().all, 0) == Tree([], []);
  }

  lemma {:induction false} RunWritesBack(lines: seq<Line>)
    requires Run(Start(), lines).Ok?
    ensures WritesBack(Run(Start(), lines).value, lines)
  {
    hide Step, WritesBack, ValidState;
    if lines == [] {
      StartWritesBack();
    } else {
      var n := |lines| - 1;
      RunWritesBack(lines[..n]);
      StepWritesBack(Run(Start(), lines[..n]).value, lines[..n], lines[n]);
      assert lines == lines[..n] + [lines[n]];
    }
  }

  lemma TreesGood(all: seq<Section>, i: nat)
    requires Valid(all) && i < |all|
    ensures Good(TreeAt(all, i))
    decreases |all| - i
  {
    var s := all[i];
    var t := TreeAt(all, i);
    ChildrenNamed(all, i, |s.sections|);
    assert Names(t.scalars) == s.scalars && ChildNames(t.sections) == s.sections;
    assert Consistent(s);
    var both := s.scalars + s.sections;
    forall a, b | 0 <= a < b < |both| ensures both[a] != both[b] {
      if a < |s.scalars| <= b { assert both[a] in s.scalars && both[b] in s.sections; }
    }
    forall k | 0 <= k < |s.sections| ensures Good(t.sections[k].tree) { TreesGood(all, ChildAt(all, i, k)); }
  }

  lemma {:induction false} ChildrenNamed(all: seq<Section>, i: nat, n: nat)
    requires Valid(all) && i < |all| && n <= |all[i].sections|
    ensures var kids := Children(all, i, n);
            |kids| == n && forall k :: 0 <= k < n ==> kids[k] == Child(all[i].sections[k], TreeAt(all, ChildAt(all, i, k)))
  {
    hide TreeAt, Holds, Hangs, Consistent;
    if n > 0 { ChildrenNamed(all, i, n - 1); }
  }

  // ---------- the two round trips ----------

  /** Reading what write gives for any tree gives the tree back, every section at its place. */
  lemma ParseWritten(t: Tree)
    requires Good(t)
    ensures var r := Run(Start(), Written(t, 0)); r.Ok? && Valid(r.value.all) && TreeAt(r.value.all, 0) == t
  {
    RunWritten(Start(), t);
  }

  /** Writing what has been read gives the lines back. */
  lemma WriteParsed(lines: seq<Line>)
    requires Run(Start(), lines).Ok?
    ensures var all := Run(Start(), lines).value.all; Good(TreeAt(all, 0)) && Written(TreeAt(all, 0), 0) == lines
  {
    RunWritesBack(lines);
    TreesGood(Run(Start(), lines).value.all, 0);
  }

  /** The parser accepts exactly what the writer can write. */
  lemma AcceptedIff(lines: seq<Line>)
    ensures Run(Start(), lines).Ok? <==> exists t :: Good(t) && lines == Written(t, 0)
  {
    if Run(Start(), lines).Ok? {
      WriteParsed(lines);
    } else if t :| Good(t) && lines == Written(t, 0) {
      ParseWritten(t);
    }
  }

  // ---------- the object ----------

  lemma RunSnoc(s: State, lines: seq<Line>, n: nat)
    requires ValidState(s) && n < |lines|
    ensures Run(s, lines[..n + 1]) == match Run(s, lines[..n]) case Ok(s') => Step(s', lines[n]) case Fail(f) => Fail(f)
  {
    assert lines[..n + 1][..n] == lines[..n];
  }

  lemma RunNothing(lines: seq<Line>)
    ensures Run(Start(), lines[..0]) == Ok(Start())
  {
  }

  /** An error in the first n lines is the result for all of them. */
  lemma {:induction false} RunStops(s: State, lines: seq<Line>, n: nat)
    requires ValidState(s) && n <= |lines| && Run(s, lines[..n]).Fail?
    ensures Run(s, lines) == Run(s, lines[..n])
    decreases |lines| - n
  {
    if n == |lines| {
      assert lines[..n] == lines;
    } else {
      RunSnoc(s, lines, n);
      RunStops(s, lines, n + 1);
    }
  }

  lemma PairsSnoc(s: Section, n: nat)
    requires Consistent(s) && 0 < n <= |s.scalars|
    ensures s.scalars[n - 1] in s.dict
    ensures KeyVals(Pairs(s, n)) == KeyVals(Pairs(s, n - 1)) + [KeyVal(s.scalars[n - 1], s.dict[s.scalars[n - 1]].text)]
  {
    assert s.scalars[n - 1] in s.scalars;
    assert Pairs(s, n)[..n - 1] == Pairs(s, n - 1);
  }

  lemma ChildrenSnoc(all: seq<Section>, i: nat, n: nat)
    requires Valid(all) && i < |all| && 0 < n <= |all[i].sections|
    ensures var c := ChildAt(all, i, n - 1);
            var d := all[i].depth;
            WrittenSections(Children(all, i, n), d) == WrittenSections(Children(all, i, n - 1), d) +
              ([Marker(d + 1, d + 1, all[i].sections[n - 1])] + Written(TreeAt(all, c), d + 1))
  {
    hide TreeAt, Holds, Hangs, Consistent, Written;
    assert Children(all, i, n)[..n - 1] == Children(all, i, n - 1);
  }

  lemma NothingWritten(all: seq<Section>, i: nat)
    requires Valid(all) && i < |all|
    ensures KeyVals(Pairs(all[i], 0)) == [] && WrittenSections(Children(all, i, 0), all[i].depth) == []
  {
  }

  lemma Append3<T>(out: seq<T>, a: seq<T>, b: seq<T>, c: seq<T>, d: seq<T>)
    requires out == a + b
    ensures out + c + d == a + (b + (c + d))
  {
  }

  /** all holds the sections in the order they were created; the first is the ConfigObj itself. */
  class ConfigObj {
    var all: seq<Section>

    constructor ()
      ensures all == Start().all && Valid(all)
    {
      all := Start().all;
    }

    /** _match_depth: walk back through the parents. */
    method FindDepth(sect: nat, depth: nat) returns (found: nat)
      requires Valid(all) && sect < |all| && depth <= all[sect].depth
      ensures found == MatchDepth(all, sect, depth)
    {
      found := sect;
      while depth < all[found].depth
        invariant found <= sect && depth <= all[found].depth
        invariant MatchDepth(all, found, depth) == MatchDepth(all, sect, depth)
        decreases found
      {
        assert found > 0 && Hangs(all, found);
        found := all[found].parent;
      }
    }

    /** Item assignment on one of the sections. */
    method SetEntry(sect: nat, key: string, e: Entry)
      requires sect < |all|
      modifies this
      ensures all == old(all)[sect := SetItem(old(all)[sect], key, e)]
    {
      var s := all[sect];
      if key !in s.dict {
        if e.Sub? { s := s.(sections := s.sections + [key]); } else { s := s.(scalars := s.scalars + [key]); }
      }
      all := all[sect := s.(dict := s.dict[key := e])];
    }

    /** What _parse does with one line; r is the new current section. */
    method ReadLine(thisSection: nat, line: Line) returns (r: Result<nat>)
      requires ValidState(State(all, thisSection))
      modifies this
      ensures match Step(old(State(all, thisSection)), line)
              case Ok(s) => s == State(all, s.this_) && r == Ok(s.this_)
              case Fail(f) => r == Fail(f) && all == old(all)
    {
      if line.Unreadable? { return Fail(InvalidLine); }
      if line.KeyVal? {
        if line.key in all[thisSection].dict { return Fail(DuplicateKey); }
        SetEntry(thisSection, line.key, Scalar(line.value));
        return Ok(thisSection);
      }
      if line.open != line.close { return Fail(BracketsDiffer); }
      var parent: nat;
      if line.open < all[thisSection].depth {
        var level := FindDepth(thisSection, line.open);
        parent := all[level].parent;
      } else if line.open == all[thisSection].depth {
        parent := all[thisSection].parent;
      } else if line.open == all[thisSection].depth + 1 {
        parent := thisSection;
      } else {
        return Fail(TooNested);
      }
      assert parent == ParentFor(all, thisSection, line.open);
      if line.name in all[parent].dict { return Fail(DuplicateSection); }
      var section := |all|;
      SetEntry(parent, line.name, Sub(section));
      all := all + [NewSection(parent, line.open, line.name)];
      r := Ok(section);
    }

    /** _parse with raise_errors set: at the first error r says which, and curIndex at which line. */
    method Parse(infile: seq<Line>) returns (r: Result<nat>, curIndex: nat)
      requires all == Start().all
      modifies this
      ensures Valid(all)
      ensures r.Ok? ==> curIndex == |infile| && Run(Start(), infile) == Ok(State(all, r.value))
      ensures r.Fail? ==> curIndex < |infile| && Run(Start(), infile) == Fail(r.fault)
      ensures r.Fail? ==> Run(Start(), infile[..curIndex]).Ok? && Run(Start(), infile[..curIndex + 1]) == Fail(r.fault)
    {
      hide Step, Run, Valid;
      var thisSection: nat := 0;
      curIndex := 0;
      RunNothing(infile);
      while curIndex < |infile|
        invariant curIndex <= |infile| && ValidState(State(all, thisSection))
        invariant Run(Start(), infile[..curIndex]) == Ok(State(all, thisSection))
      {
        RunSnoc(Start(), infile, curIndex);
        r := ReadLine(thisSection, infile[curIndex]);
        if r.Fail? {
          RunStops(Start(), infile, curIndex + 1);
          return;
        }
        thisSection := r.value;
        curIndex := curIndex + 1;
      }
      assert infile[..curIndex] == infile;
      r := Ok(thisSection);
    }

    /** write for one section: scalars first, then the sections, each behind its marker. */
    method Write(section: nat) returns (out: seq<Line>)
      requires Valid(all) && section < |all|
      ensures out == Written(TreeAt(all, section), all[section].depth)
      decreases |all| - section
    {
      hide Holds, Hangs, Distinct, Pairs, KeyVals, Children, WrittenSections;
      out := [];
      var s := all[section];
      assert Consistent(s);
      NothingWritten(all, section);
      ghost var n := |s.scalars|;
      var entries := s.scalars + s.sections;
      var i := 0;
      while i < |entries|
        invariant i <= |entries|
        invariant i <= n ==> out == KeyVals(Pairs(s, i))
        invariant i >= n ==> out == KeyVals(Pairs(s, n)) + WrittenSections(Children(all, section, i - n), s.depth)
      {
        var entry := entries[i];
        assert if i < n then entry in s.scalars else entry in s.sections;
        if s.dict[entry].Sub? {
          var sub := s.dict[entry].id;
          assert entry == s.sections[i - n] && sub == ChildAt(all, section, i - n);
          ChildHangs(all, section, i - n);
          ChildrenSnoc(all, section, i + 1 - n);
          var marker := Marker(all[sub].depth, all[sub].depth, entry);
          var lines := Write(sub);
          Append3(out, KeyVals(Pairs(s, n)), WrittenSections(Children(all, section, i - n), s.depth), [marker], lines);
          out := out + [marker] + lines;
        } else {
          assert entry == s.scalars[i];
          PairsSnoc(s, i + 1);
          out := out + [KeyVal(entry, s.dict[entry].text)];
        }
        i := i + 1;
      }
    }
  }
}
