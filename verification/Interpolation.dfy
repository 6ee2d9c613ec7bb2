/** configobj.py: ConfigParser-style interpolation with loop detection by a backtrail. */
module Interpolation {
  import opened Basics

  /** Exceptions: a loop, a missing option, a value that is not a string, a DEFAULT that is no section, and a key that is
      not there. */
  datatype Fault = Loop(key: string) | Missing(key: string) | NotAString | NotASection | NoKey(key: string)

  datatype Result<+T> = Ok(value: T) | Fail(fault: Fault)

  datatype Value = Str(s: string) | Other

  datatype Defaults = NoDefaults | DefaultSection(values: map<string, Value>) | DefaultScalar

  /** A section as interpolation sees it. */
  datatype Section = Section(name: string, values: map<string, Value>, defaults: Defaults)

  // ---------- the pattern %(key)s ----------

  datatype Match = Match(start: nat, end: nat, key: string)

  /** The first closing parenthesis from p on, or the length. */
  function CloseParen(s: string, p: nat): (j: nat)
    requires p <= |s|
    ensures p <= j <= |s| && (j < |s| ==> s[j] == ')')
    decreases |s| - p
  {
    if p == |s| || s[p] == ')' then p else CloseParen(s, p + 1)
  }

  function MatchAt(s: string, i: nat): (m: Option<Match>)
    ensures m.Some? ==> m.value.start == i < m.value.end <= |s|
  {
    if i + 1 < |s| && s[i] == '%' && s[i + 1] == '(' then
      var j := CloseParen(s, i + 2);
      if j + 1 < |s| && s[j + 1] == 's' then Some(Match(i, j + 2, s[i + 2..j])) else None
    else None
  }

  /** re.search from a position: the leftmost match. */
  function Search(s: string, p: nat): (m: Option<Match>)
    ensures m.Some? ==> p <= m.value.start < m.value.end <= |s|
    decreases |s| - p
  {
    if p >= |s| then None
    else if MatchAt(s, p).Some? then MatchAt(s, p)
    else Search(s, p + 1)
  }

  function Shift(m: Option<Match>, n: nat): Option<Match> {
    match m
    case None => None
    case Some(m) => Some(Match(m.start + n, m.end + n, m.key))
  }

  lemma {:induction false} CloseParenShift(a: string, s: string, p: nat)
    requires p <= |s|
    ensures CloseParen(a + s, |a| + p) == |a| + CloseParen(s, p)
    decreases |s| - p
  {
    if p < |s| && s[p] != ')' { CloseParenShift(a, s, p + 1); }
  }

  lemma MatchAtShift(a: string, s: string, i: nat)
    ensures MatchAt(a + s, |a| + i) == Shift(MatchAt(s, i), |a|)
  {
    if i + 1 < |s| && s[i] == '%' && s[i + 1] == '(' {
      CloseParenShift(a, s, i + 2);
      var j := CloseParen(s, i + 2);
      assert (a + s)[|a| + i + 2..|a| + j] == s[i + 2..j];
    }
  }

  /** Searching on behind what has been replaced is searching what is left. */
  lemma {:induction false} SearchShift(a: string, s: string, i: nat)
    ensures Search(a + s, |a| + i) == Shift(Search(s, i), |a|)
    decreases |s| - i
  {
    if i < |s| {
      MatchAtShift(a, s, i);
      if MatchAt(s, i).None? { SearchShift(a, s, i + 1); }
    }
  }

  /** The text from i to j is %( and a key without a closing parenthesis and )s. */
  predicate IsReference(s: string, i: nat, j: nat, key: string) {
    i <= j <= |s| && s[i..j] == "%(" + key + ")s" && ')' !in key
  }

  lemma {:induction false} CloseParenIs(s: string, p: nat, j: nat)
    requires p <= j < |s| && s[j] == ')' && ')' !in s[p..j]
    ensures CloseParen(s, p) == j
    decreases j - p
  {
    if p < j {
      assert s[p] == s[p..j][0];
      assert s[p + 1..j] == s[p..j][1..];
      CloseParenIs(s, p + 1, j);
    }
  }

  lemma {:induction false} CloseParenFirst(s: string, p: nat)
    requires p <= |s|
    ensures ')' !in s[p..CloseParen(s, p)]
    decreases |s| - p
  {
    var j := CloseParen(s, p);
    if p < j {
      CloseParenFirst(s, p + 1);
      assert s[p..j] == [s[p]] + s[p + 1..j];
    }
  }

  lemma KeySlice(s: string, i: nat, j: nat)
    requires i + 4 <= j <= |s|
    ensures s[i..j][2..j - i - 2] == s[i + 2..j - 2]
  {
    var x, y := s[i..j][2..j - i - 2], s[i + 2..j - 2];
    forall k | 0 <= k < |x| ensures x[k] == y[k] { assert s[i..j][2 + k] == s[i + 2 + k]; }
  }

  lemma MatchAtIs(s: string, i: nat, j: nat, key: string)
    ensures IsReference(s, i, j, key) <==> MatchAt(s, i) == Some(Match(i, j, key))
  {
    if IsReference(s, i, j, key) {
      var t := s[i..j];
      assert |t| == |key| + 4 && t[0] == '%' && t[1] == '(' && t[|key| + 2] == ')' && t[|key| + 3] == 's';
      assert t[2..|key| + 2] == key;
      KeySlice(s, i, j);
      CloseParenIs(s, i + 2, j - 2);
    }
    if MatchAt(s, i) == Some(Match(i, j, key)) {
      CloseParenFirst(s, i + 2);
      assert s[i..j] == "%(" + s[i + 2..j - 2] + ")s";
    }
  }

  /** The search finds a reference exactly if it stands there and none starts between p and it. */
  lemma {:induction false} SearchIs(s: string, p: nat, i: nat, j: nat, key: string)
    ensures Search(s, p) == Some(Match(i, j, key)) <==>
              p <= i && IsReference(s, i, j, key) && (forall h, j', k :: p <= h < i ==> !IsReference(s, h, j', k))
    decreases |s| - p
  {
    MatchAtIs(s, p, j, key);
    if p < |s| && MatchAt(s, p).None? {
      forall j', k ensures !IsReference(s, p, j', k) { MatchAtIs(s, p, j', k); }
      SearchIs(s, p + 1, i, j, key);
    } else if p < |s| {
      var m := MatchAt(s, p).value;
      MatchAtIs(s, p, m.end, m.key);
    }
  }

  // ---------- _fetch ----------

  datatype Found = Found(value: Value, level: nat)

  /** The sections from the owner up to the top level; the value and how far up it was found. */
  function Fetch(path: seq<Section>, key: string, i: nat): (r: Result<Found>)
    requires i <= |path|
    ensures r.Ok? ==> i <= r.value.level < |path|
    ensures r.Ok? ==> var s := path[r.value.level];
              key in s.values || (s.defaults.DefaultSection? && key in s.defaults.values)
    ensures r.Fail? ==> r.fault in {Missing(key), NotASection}
    decreases |path| - i
  {
    if i == |path| then Fail(Missing(key))
    else if key in path[i].values then Ok(Found(path[i].values[key], i))
    else
      match path[i].defaults
      case DefaultScalar => Fail(NotASection)
      case DefaultSection(vs) => if key in vs then Ok(Found(vs[key], i)) else Fetch(path, key, i + 1)
      case NoDefaults => Fetch(path, key, i + 1)
  }

  /** The section or its DEFAULT has the key. */
  predicate Has(s: Section, key: string) {
    key in s.values || (s.defaults.DefaultSection? && key in s.defaults.values)
  }

  /** The first level that has the key is l, and no level in front of it has a DEFAULT that is no section. */
  ghost predicate FirstWith(path: seq<Section>, key: string, l: nat) {
    l < |path| && Has(path[l], key) && forall j :: 0 <= j < l ==> !Has(path[j], key) && !path[j].defaults.DefaultScalar?
  }

  /** What a lookup comes to: the value of the first section that has the key, in front of the one in its DEFAULT, unless
      a DEFAULT that is no section comes first. */
  ghost predicate IsFetched(path: seq<Section>, key: string, r: Result<Found>) {
    && (forall l: nat :: FirstWith(path, key, l) && key in path[l].values ==> r == Ok(Found(path[l].values[key], l)))
    && (forall l: nat :: FirstWith(path, key, l) && key !in path[l].values ==> r == Ok(Found(path[l].defaults.values[key], l)))
    && (r == Fail(Missing(key)) <==> forall l :: 0 <= l < |path| ==> !Has(path[l], key) && !path[l].defaults.DefaultScalar?)
  }

  lemma FetchIs(path: seq<Section>, key: string)
    ensures IsFetched(path, key, Fetch(path, key, 0)) && (Fetch(path, key, 0) == Fail(NotASection) <==> HitsScalar(path, key))
  {
    hide HitsScalar;
    FetchScalar(path, key, 0);
    FetchFrom(path, key, 0);
  }

  lemma {:induction false} FetchFrom(path: seq<Section>, key: string, i: nat)
    requires i <= |path| && forall j :: 0 <= j < i ==> !Has(path[j], key) && !path[j].defaults.DefaultScalar?
    ensures var r := Fetch(path, key, i);
            && (forall l: nat :: FirstWith(path, key, l) ==>
                  r == Ok(Found(if key in path[l].values then path[l].values[key] else path[l].defaults.values[key], l)))
            && (r == Fail(Missing(key)) <==> forall l :: 0 <= l < |path| ==> !Has(path[l], key) && !path[l].defaults.DefaultScalar?)
    decreases |path| - i
  {
    if i < |path| && !Has(path[i], key) && !path[i].defaults.DefaultScalar? { FetchFrom(path, key, i + 1); }
  }

  type Marker = (string, string)

  function MarkerOf(path: seq<Section>, key: string, level: nat): Marker
    requires level < |path|
  {
    (key, path[level].name)
  }

  /** Every marker a lookup can leave on the backtrail. */
  function Universe(path: seq<Section>): set<Marker> {
    if path == [] then {}
    else
      var s := path[0];
      (set k | k in s.values :: (k, s.name)) +
      (match s.defaults case DefaultSection(vs) => (set k | k in vs :: (k, s.name)) case _ => {}) +
      Universe(path[1..])
  }

  lemma {:induction false} InUniverse(path: seq<Section>, i: nat, key: string)
    requires i < |path|
    requires key in path[i].values || (path[i].defaults.DefaultSection? && key in path[i].defaults.values)
    ensures MarkerOf(path, key, i) in Universe(path)
  {
    if i > 0 { InUniverse(path[1..], i - 1, key); }
  }

  // ---------- interpolation ----------

  /** recursive_interpolate; trail is the backtrail on entry. */
  function Interpolate(path: seq<Section>, key: string, value: string, level: nat, trail: set<Marker>): Result<string>
    requires level < |path|
    decreases Universe(path) + {MarkerOf(path, key, level)} - trail, 0, 0
  {
    var m := MarkerOf(path, key, level);
    if m in trail then Fail(Loop(key))
    else
      assert m in Universe(path) + {m} - trail && m !in Universe(path) - (trail + {m});
      Expand(path, value, trail + {m})
  }

  /** The loop over the matches, seen from the part of the value not yet scanned. */
  function Expand(path: seq<Section>, value: string, trail: set<Marker>): Result<string>
    decreases Universe(path) - trail, |value|, 1
  {
    match Search(value, 0)
    case None => Ok(value)
    case Some(m) =>
      match Lookup(path, m.key, trail)
      case Fail(f) => Fail(f)
      case Ok(replacement) =>
        match Expand(path, value[m.end..], trail)
        case Fail(f) => Fail(f)
        case Ok(rest) => Ok(value[..m.start] + replacement + rest)
  }

  /** _parse_match and the recursive call for its result. */
  function Lookup(path: seq<Section>, key: string, trail: set<Marker>): Result<string>
    decreases Universe(path) - trail, 0, 1
  {
    match Fetch(path, key, 0)
    case Fail(f) => Fail(f)
    case Ok(Found(Other, level)) => if MarkerOf(path, key, level) in trail then Fail(Loop(key)) else Fail(NotAString)
    case Ok(Found(Str(v), level)) =>
      InUniverse(path, level, key);
      assert Universe(path) + {MarkerOf(path, key, level)} == Universe(path);
      Interpolate(path, key, v, level, trail)
  }

  // ---------- plain recursive substitution ----------

  datatype Outcome = Done(r: Result<string>) | OutOfFuel

  /** Replace every reference by its value, references in that value first, to a nesting of n. */
  function Substitute(path: seq<Section>, value: string, n: nat): Outcome
    decreases n, |value|
  {
    match Search(value, 0)
    case None => Done(Ok(value))
    case Some(m) =>
      if n == 0 then OutOfFuel
      else
        match SubstituteKey(path, m.key, n - 1)
        case OutOfFuel => OutOfFuel
        case Done(Fail(f)) => Done(Fail(f))
        case Done(Ok(replacement)) =>
          match Substitute(path, value[m.end..], n)
          case OutOfFuel => OutOfFuel
          case Done(Fail(f)) => Done(Fail(f))
          case Done(Ok(rest)) => Done(Ok(value[..m.start] + replacement + rest))
  }

  function SubstituteKey(path: seq<Section>, key: string, n: nat): Outcome
    decreases n, |ValueOf(path, key)| + 1
  {
    match Fetch(path, key, 0)
    case Fail(f) => Done(Fail(f))
    case Ok(Found(Other, _)) => Done(Fail(NotAString))
    case Ok(Found(Str(v), _)) => Substitute(path, v, n)
  }

  function ValueOf(path: seq<Section>, key: string): string {
    match Fetch(path, key, 0)
    case Ok(Found(Str(v), _)) => v
    case _ => ""
  }

  ghost predicate Ends(path: seq<Section>, key: string, n: nat) {
    SubstituteKey(path, key, n) != OutOfFuel
  }

  ghost predicate EndsAs(path: seq<Section>, value: string, r: Result<string>) {
    exists n :: Substitute(path, value, n) == Done(r)
  }

  ghost predicate NeverEnds(path: seq<Section>, value: string) {
    forall n :: Substitute(path, value, n) == OutOfFuel
  }

  // ---------- interpolation is substitution, and a loop error means substitution never ends ----------

  lemma {:induction false} SubstituteMono(path: seq<Section>, value: string, n: nat, m: nat)
    requires n <= m && Substitute(path, value, n) != OutOfFuel
    ensures Substitute(path, value, m) == Substitute(path, value, n)
    decreases n, |value|
  {
    var found := Search(value, 0);
    if found.Some? {
      var k := found.value.key;
      match Fetch(path, k, 0) {
        case Ok(Found(Str(v), _)) => SubstituteMono(path, v, n - 1, m - 1);
        case _ =>
      }
      if SubstituteKey(path, k, n - 1).r.Ok? {
        SubstituteMono(path, value[found.value.end..], n, m);
      }
    }
  }

  /** The outcome does not depend on how deep one is willing to look. */
  lemma OneOutcome(path: seq<Section>, value: string, r: Result<string>, r': Result<string>)
    requires EndsAs(path, value, r) && EndsAs(path, value, r')
    ensures r == r'
  {
    var n: nat :| Substitute(path, value, n) == Done(r);
    var m: nat :| Substitute(path, value, m) == Done(r');
    SubstituteMono(path, value, if n <= m then n else m, if n <= m then m else n);
  }

  function LevelOf(path: seq<Section>, key: string): nat
    requires FetchesString(path, key)
    ensures LevelOf(path, key) < |path|
  {
    Fetch(path, key, 0).value.level
  }

  /** Looking a string up expands it with its marker on the trail. */
  lemma LookupString(path: seq<Section>, key: string, trail: set<Marker>)
    requires FetchesString(path, key)
    ensures var m := MarkerOf(path, key, LevelOf(path, key));
            Lookup(path, key, trail) ==
            (if m in trail then Fail(Loop(key)) else Expand(path, ValueOf(path, key), trail + {m}))
    ensures var m := MarkerOf(path, key, LevelOf(path, key));
            m !in trail ==> m in Universe(path) - trail && Universe(path) - (trail + {m}) < Universe(path) - trail
  {
    var level := LevelOf(path, key);
    InUniverse(path, level, key);
    var m := MarkerOf(path, key, level);
    var v := ValueOf(path, key);
    assert Lookup(path, key, trail) == Interpolate(path, key, v, level, trail);
    if m !in trail {
      assert m in Universe(path) - trail && m !in Universe(path) - (trail + {m});
    }
  }

  predicate IsLoop(r: Result<string>) {
    r.Fail? && r.fault.Loop?
  }

  /** The first reference to a depth of n - 1 and the rest to one of n2 make the value to one of n'. */
  lemma ToOneDepth(path: seq<Section>, value: string, n: nat, n2: nat) returns (n': nat)
    requires Search(value, 0).Some? && n > 0
    requires var m := Search(value, 0).value;
             && Ends(path, m.key, n - 1) && SubstituteKey(path, m.key, n - 1).r.Ok?
             && Substitute(path, value[m.end..], n2) != OutOfFuel
    ensures var m := Search(value, 0).value;
            Substitute(path, value, n') ==
            match Substitute(path, value[m.end..], n2).r
            case Ok(rest) => Done(Ok(value[..m.start] + SubstituteKey(path, m.key, n - 1).r.value + rest))
            case Fail(f) => Done(Fail(f))
  {
    n' := if n < n2 then n2 else n;
    var m := Search(value, 0).value;
    Deepen(path, m.key, n - 1, n' - 1);
    SubstituteMono(path, value[m.end..], n2, n');
  }

  /** Whatever the trail: unless it stops at a loop, expansion is substitution, to the depth n. */
  lemma {:induction false} ExpandSubstitutes(path: seq<Section>, value: string, trail: set<Marker>) returns (n: nat)
    requires !IsLoop(Expand(path, value, trail))
    ensures Substitute(path, value, n) == Done(Expand(path, value, trail))
    decreases Universe(path) - trail, |value|
  {
    n := 0;
    var found := Search(value, 0);
    if found.Some? {
      var k := found.value.key;
      n := 1;
      if FetchesString(path, k) {
        LookupString(path, k, trail);
        var n1 := ExpandSubstitutes(path, ValueOf(path, k), trail + {MarkerOf(path, k, LevelOf(path, k))});
        n := n1 + 1;
      }
      if Lookup(path, k, trail).Ok? {
        var n2 := ExpandSubstitutes(path, value[found.value.end..], trail);
        n := ToOneDepth(path, value, n, n2);
      }
    }
  }

  lemma Deepen(path: seq<Section>, key: string, n: nat, m: nat)
    requires n <= m && Ends(path, key, n)
    ensures SubstituteKey(path, key, m) == SubstituteKey(path, key, n)
  {
    match Fetch(path, key, 0)
    case Ok(Found(Str(v), _)) => SubstituteMono(path, v, n, m);
    case _ =>
  }

  /** The keys now being expanded are all strings. */
  ghost predicate StringTrail(path: seq<Section>, trail: set<Marker>) {
    forall m :: m in trail ==> FetchesString(path, m.0)
  }

  predicate FetchesString(path: seq<Section>, key: string) {
    var r := Fetch(path, key, 0);
    r.Ok? && r.value.value.Str?
  }

  ghost predicate OnTrail(key: string, trail: set<Marker>) {
    exists m :: m in trail && m.0 == key
  }

  /** If expanding the value to a depth of n ends, expanding key ended at a smaller depth. */
  ghost predicate Contains(path: seq<Section>, value: string, key: string) {
    forall n: nat {:trigger Substitute(path, value, n)} :: Substitute(path, value, n) != OutOfFuel ==> EndsBelow(path, key, n)
  }

  ghost predicate EndsBelow(path: seq<Section>, key: string, n: nat) {
    exists m: nat :: m < n && Ends(path, key, m)
  }

  /** A key whose own value contains it never ends. */
  lemma {:induction false} SelfContaining(path: seq<Section>, key: string, n: nat)
    requires FetchesString(path, key) && Contains(path, ValueOf(path, key), key)
    ensures Substitute(path, ValueOf(path, key), n) == OutOfFuel
  {
    if Substitute(path, ValueOf(path, key), n) != OutOfFuel {
      var m: nat :| m < n && Ends(path, key, m);
      SelfContaining(path, key, m);
      assert false;
    }
  }

  /** A loop error names a key still being expanded, and every end of this value needs an earlier end of that key. */
  lemma {:induction false} ExpandLoops(path: seq<Section>, value: string, trail: set<Marker>)
    requires IsLoop(Expand(path, value, trail)) && StringTrail(path, trail)
    ensures var k := Expand(path, value, trail).fault.key;
            Contains(path, value, k) && (OnTrail(k, trail) || NeverEnds(path, value))
    decreases Universe(path) - trail, |value|
  {
    var found := Search(value, 0).value;
    var k := found.key;
    if IsLoop(Lookup(path, k, trail)) {
      LookupLoops(path, k, trail);
      ReachesFirst(path, value, Lookup(path, k, trail).fault.key);
      if NeverEnds(path, ValueOf(path, k)) { NeverFirst(path, value); }
    } else {
      var rest := value[found.end..];
      ExpandLoops(path, rest, trail);
      ReachesRest(path, value, Expand(path, rest, trail).fault.key);
    }
  }

  lemma LookupFetches(path: seq<Section>, key: string, trail: set<Marker>)
    requires IsLoop(Lookup(path, key, trail)) && StringTrail(path, trail)
    ensures FetchesString(path, key)
  {
  }

  lemma {:induction false} LookupLoops(path: seq<Section>, key: string, trail: set<Marker>)
    requires IsLoop(Lookup(path, key, trail)) && StringTrail(path, trail)
    ensures FetchesString(path, key)
    ensures var k := Lookup(path, key, trail).fault.key;
            (k == key || Contains(path, ValueOf(path, key), k)) &&
            (OnTrail(k, trail) || NeverEnds(path, ValueOf(path, key)))
    decreases Universe(path) - trail, 0
  {
    LookupFetches(path, key, trail);
    LookupString(path, key, trail);
    var m := MarkerOf(path, key, LevelOf(path, key));
    if m !in trail {
      var v := ValueOf(path, key);
      assert FetchesString(path, m.0);
      ExpandLoops(path, v, trail + {m});
      var k := Lookup(path, key, trail).fault.key;
      if k == key {
        forall n: nat ensures Substitute(path, v, n) == OutOfFuel { SelfContaining(path, key, n); }
      }
    }
  }

  lemma ReachesFirst(path: seq<Section>, value: string, k: string)
    requires Search(value, 0).Some?
    requires var key := Search(value, 0).value.key;
             FetchesString(path, key) && (k == key || Contains(path, ValueOf(path, key), k))
    ensures Contains(path, value, k)
  {
    var key := Search(value, 0).value.key;
    forall n: nat | Substitute(path, value, n) != OutOfFuel
      ensures EndsBelow(path, k, n)
    {
      assert Ends(path, key, n - 1);
      if k != key {
        assert Substitute(path, ValueOf(path, key), n - 1) != OutOfFuel;
        var m: nat :| m < n - 1 && Ends(path, k, m);
        assert m < n;
      }
    }
  }

  lemma NeverFirst(path: seq<Section>, value: string)
    requires Search(value, 0).Some?
    requires var key := Search(value, 0).value.key; FetchesString(path, key) && NeverEnds(path, ValueOf(path, key))
    ensures NeverEnds(path, value)
  {
    var key := Search(value, 0).value.key;
    forall n: nat ensures Substitute(path, value, n) == OutOfFuel {
      if n > 0 { assert Substitute(path, ValueOf(path, key), n - 1) == OutOfFuel; }
    }
  }

  /** The first reference expanded without a loop, so only the rest can decide. */
  lemma ReachesRest(path: seq<Section>, value: string, k: string)
    requires Search(value, 0).Some?
    requires exists t :: Lookup(path, Search(value, 0).value.key, t).Ok?
    requires Contains(path, value[Search(value, 0).value.end..], k)
    ensures Contains(path, value, k)
    ensures NeverEnds(path, value[Search(value, 0).value.end..]) ==> NeverEnds(path, value)
  {
    var key := Search(value, 0).value.key;
    var rest := value[Search(value, 0).value.end..];
    var t :| Lookup(path, key, t).Ok?;
    forall n: nat | Substitute(path, value, n) != OutOfFuel
      ensures Substitute(path, rest, n) != OutOfFuel
    {
      LookupIsSubstitution(path, key, t, n - 1);
    }
  }

  // ---------- which keys a substitution looks up ----------

  /** Substituting to a nesting of n looks key up, in the value or in one looked up for it, before it ends or fails. */
  predicate LooksUp(path: seq<Section>, value: string, key: string, n: nat)
    decreases n, |value|
  {
    match Search(value, 0)
    case None => false
    case Some(m) =>
      n > 0 && (|| m.key == key || (FetchesString(path, m.key) && LooksUp(path, ValueOf(path, m.key), key, n - 1))
                || (SubstituteKey(path, m.key, n - 1).Done? && SubstituteKey(path, m.key, n - 1).r.Ok?
                    && LooksUp(path, value[m.end..], key, n)))
  }

  /** What is looked up by a substitution that ends is so to any depth at which it ends. */
  lemma {:induction false} LooksUpMono(path: seq<Section>, value: string, key: string, n: nat, m: nat)
    requires n <= m && Substitute(path, value, n) != OutOfFuel
    ensures LooksUp(path, value, key, n) <==> LooksUp(path, value, key, m)
    decreases n, |value|
  {
    var found := Search(value, 0);
    if found.Some? {
      var k := found.value.key;
      assert Ends(path, k, n - 1);
      Deepen(path, k, n - 1, m - 1);
      if FetchesString(path, k) { LooksUpMono(path, ValueOf(path, k), key, n - 1, m - 1); }
      if SubstituteKey(path, k, n - 1).r.Ok? { LooksUpMono(path, value[found.value.end..], key, n, m); }
    }
  }

  /** A key that is looked up ends at a smaller depth. */
  lemma {:induction false} LooksUpEnds(path: seq<Section>, value: string, key: string, n: nat) returns (m: nat)
    requires Substitute(path, value, n) != OutOfFuel && LooksUp(path, value, key, n)
    ensures m < n && Ends(path, key, m)
    decreases n, |value|
  {
    var found := Search(value, 0).value;
    var k := found.key;
    assert Ends(path, k, n - 1);
    if k == key {
      m := n - 1;
    } else if FetchesString(path, k) && LooksUp(path, ValueOf(path, k), key, n - 1) {
      m := LooksUpEnds(path, ValueOf(path, k), key, n - 1);
    } else {
      m := LooksUpEnds(path, value[found.end..], key, n);
    }
  }

  /** A value whose substitution ends does not look its own key up. */
  lemma {:induction false} NotItself(path: seq<Section>, key: string, n: nat)
    requires FetchesString(path, key) && Substitute(path, ValueOf(path, key), n) != OutOfFuel
    ensures !LooksUp(path, ValueOf(path, key), key, n)
  {
    if LooksUp(path, ValueOf(path, key), key, n) {
      var m := LooksUpEnds(path, ValueOf(path, key), key, n);
      LooksUpMono(path, ValueOf(path, key), key, m, n);
      NotItself(path, key, m);
    }
  }

  /** The key is found in a section with the name of the owner. */
  predicate SameName(path: seq<Section>, key: string)
    requires |path| > 0
  {
    var r := Fetch(path, key, 0);
    r.Ok? && path[r.value.level].name == path[0].name
  }

  /** The markers on the trail but for the first are of keys that the value does not look up. */
  ghost predicate Above(path: seq<Section>, first: Marker, trail: set<Marker>, value: string, n: nat) {
    first in trail && forall m :: m in trail && m != first ==> !LooksUp(path, value, m.0, n)
  }

  lemma AboveKey(path: seq<Section>, first: Marker, trail: set<Marker>, value: string, n: nat)
    requires Above(path, first, trail, value, n) && Search(value, 0).Some? && n > 0
    requires FetchesString(path, Search(value, 0).value.key)
    requires Substitute(path, ValueOf(path, Search(value, 0).value.key), n - 1) != OutOfFuel
    ensures var k := Search(value, 0).value.key;
            Above(path, first, trail + {MarkerOf(path, k, LevelOf(path, k))}, ValueOf(path, k), n - 1)
  {
    var k := Search(value, 0).value.key;
    NotItself(path, k, n - 1);
    forall m | m in trail && m != first ensures !LooksUp(path, ValueOf(path, k), m.0, n - 1) {
      assert !LooksUp(path, value, m.0, n);
    }
  }

  lemma AboveRest(path: seq<Section>, first: Marker, trail: set<Marker>, value: string, n: nat)
    requires Above(path, first, trail, value, n) && Search(value, 0).Some? && n > 0
    requires var o := SubstituteKey(path, Search(value, 0).value.key, n - 1); o.Done? && o.r.Ok?
    ensures Above(path, first, trail, value[Search(value, 0).value.end..], n)
  {
    forall m | m in trail && m != first ensures !LooksUp(path, value[Search(value, 0).value.end..], m.0, n) {
      assert !LooksUp(path, value, m.0, n);
    }
  }

  /** Where substitution ends, expansion stops at a loop exactly if it comes back to the marker it was started with. */
  lemma {:induction false} ExpandLoopsIff(path: seq<Section>, key: string, value: string, trail: set<Marker>, n: nat)
    requires |path| > 0 && Substitute(path, value, n) != OutOfFuel && Above(path, (key, path[0].name), trail, value, n)
    ensures IsLoop(Expand(path, value, trail)) <==> SameName(path, key) && LooksUp(path, value, key, n)
    decreases n, |value|
  {
    var first := (key, path[0].name);
    var found := Search(value, 0);
    if found.Some? {
      var k := found.value.key;
      assert Ends(path, k, n - 1);
      LookupLoopsIff(path, key, value, trail, n);
      var l := Lookup(path, k, trail);
      if l.Ok? {
        LookupIsSubstitution(path, k, trail, n - 1);
        AboveRest(path, first, trail, value, n);
        ExpandLoopsIff(path, key, value[found.value.end..], trail, n);
      } else if !IsLoop(l) {
        LookupIsSubstitution(path, k, trail, n - 1);
      }
    }
  }

  /** The first reference. */
  lemma {:induction false} LookupLoopsIff(path: seq<Section>, key: string, value: string, trail: set<Marker>, n: nat)
    requires |path| > 0 && Substitute(path, value, n) != OutOfFuel && Above(path, (key, path[0].name), trail, value, n)
    requires Search(value, 0).Some?
    ensures n > 0
    ensures var k := Search(value, 0).value.key;
            IsLoop(Lookup(path, k, trail)) <==>
              SameName(path, key) && (k == key || (FetchesString(path, k) && LooksUp(path, ValueOf(path, k), key, n - 1)))
    decreases n, 0
  {
    var first := (key, path[0].name);
    var k := Search(value, 0).value.key;
    assert forall m :: m in trail && m != first ==> m.0 != k by {
      forall m | m in trail && m != first ensures m.0 != k { assert !LooksUp(path, value, m.0, n); }
    }
    if FetchesString(path, k) {
      var m := MarkerOf(path, k, LevelOf(path, k));
      LookupString(path, k, trail);
      if m !in trail {
        AboveKey(path, first, trail, value, n);
        ExpandLoopsIff(path, key, ValueOf(path, k), trail + {m}, n - 1);
      }
    }
  }

  /** A lookup that does not loop is what substitution has, at any depth at which that ends. */
  lemma LookupIsSubstitution(path: seq<Section>, key: string, trail: set<Marker>, n: nat)
    requires !IsLoop(Lookup(path, key, trail)) && Ends(path, key, n)
    ensures SubstituteKey(path, key, n) == Done(Lookup(path, key, trail))
  {
    if FetchesString(path, key) {
      LookupString(path, key, trail);
      var v := ValueOf(path, key);
      var m := ExpandSubstitutes(path, v, trail + {MarkerOf(path, key, LevelOf(path, key))});
      assert Substitute(path, v, n) == Done(SubstituteKey(path, key, n).r);
      OneOutcome(path, v, Lookup(path, key, trail), SubstituteKey(path, key, n).r);
    }
  }

  // ---------- what a read means ----------

  /** Substitution ends, but on its way looks up key in a section with the name of the owner. */
  ghost predicate ComesBack(path: seq<Section>, key: string, value: string)
    requires |path| > 0
  {
    SameName(path, key) && exists n :: Substitute(path, value, n) != OutOfFuel && LooksUp(path, value, key, n)
  }

  /** Interpolating a value under any key, there or not: the value with every reference replaced, and a loop error exactly
      where replacing would go on for ever or comes back to the marker the read started with. */
  lemma ReadMeans(path: seq<Section>, key: string, value: string)
    requires |path| > 0
    ensures var r := Interpolate(path, key, value, 0, {});
            && (IsLoop(r) <==> NeverEnds(path, value) || ComesBack(path, key, value))
            && (!IsLoop(r) ==> forall r' :: EndsAs(path, value, r') <==> r' == r)
  {
    var first := MarkerOf(path, key, 0);
    var r := Interpolate(path, key, value, 0, {});
    assert {} + {first} == {first};
    forall n | Substitute(path, value, n) != OutOfFuel
      ensures IsLoop(r) <==> SameName(path, key) && LooksUp(path, value, key, n)
    {
      ExpandLoopsIff(path, key, value, {first}, n);
    }
    if !IsLoop(r) {
      var n := ExpandSubstitutes(path, value, {first});
      forall r' | EndsAs(path, value, r') ensures r' == r { OneOutcome(path, value, r, r'); }
    }
  }

  /** Reading a string option: the value with every reference replaced, and a loop error exactly where
      replacing would go on for ever. */
  lemma InterpolateMeans(path: seq<Section>, key: string, value: string)
    requires |path| > 0 && key in path[0].values && path[0].values[key] == Str(value)
    ensures var r := Interpolate(path, key, value, 0, {});
            && (IsLoop(r) <==> NeverEnds(path, value))
            && (!IsLoop(r) ==> forall r' :: EndsAs(path, value, r') <==> r' == r)
  {
    hide ComesBack, NeverEnds, EndsAs;
    ReadMeans(path, key, value);
    NeverComesBack(path, key);
  }

  /** A value that is in the owner never comes back to its own marker and ends. */
  lemma NeverComesBack(path: seq<Section>, key: string)
    requires |path| > 0 && key in path[0].values && path[0].values[key].Str?
    ensures !ComesBack(path, key, path[0].values[key].s)
  {
    var value := path[0].values[key].s;
    assert FetchesString(path, key) && ValueOf(path, key) == value;
    forall n | Substitute(path, value, n) != OutOfFuel ensures !LooksUp(path, value, key, n) { NotItself(path, key, n); }
  }

  /** Popping a key leaves that case: [a] x = 1 and in it [[a]] x = %(x)s. The inner x is 1 by substitution; popped, its
      reference is to the outer x, in a section of the same name, and the code calls that a loop. */
  lemma PoppedNameClash()
    ensures var path := [Section("a", map[], NoDefaults), Section("a", map["x" := Str("1")], NoDefaults)];
            && Interpolate(path, "x", "%(x)s", 0, {}) == Fail(Loop("x"))
            && Substitute(path, "%(x)s", 1) == Done(Ok("1"))
  {
    var path := [Section("a", map[], NoDefaults), Section("a", map["x" := Str("1")], NoDefaults)];
    XReference();
    assert Fetch(path, "x", 1) == Ok(Found(Str("1"), 1));
    assert Fetch(path, "x", 0) == Ok(Found(Str("1"), 1));
    assert MarkerOf(path, "x", 1) == MarkerOf(path, "x", 0) == ("x", "a");
    assert {} + {("x", "a")} == {("x", "a")};
    LookupString(path, "x", {("x", "a")});
    assert Expand(path, "%(x)s", {("x", "a")}) == Fail(Loop("x"));
    assert "%(x)s"[..0] + "1" + "" == "1";
  }

  lemma XReference()
    ensures Search("%(x)s", 0) == Some(Match(0, 5, "x")) && Search("1", 0) == None && Search("", 0) == None
    ensures "%(x)s"[5..] == ""
  {
    assert CloseParen("%(x)s", 3) == 3;
    assert "%(x)s"[2..3] == "x";
    assert MatchAt("%(x)s", 0) == Some(Match(0, 5, "x"));
    assert Search("1", 1) == None;
  }

  // ---------- a DEFAULT that is no section ----------

  /** On its way up the lookup comes to a DEFAULT that is no section before it finds the key. */
  ghost predicate HitsScalar(path: seq<Section>, key: string) {
    exists i :: 0 <= i < |path| && ScalarAt(path, key, i)
  }

  ghost predicate ScalarAt(path: seq<Section>, key: string, i: nat)
    requires i < |path|
  {
    && path[i].defaults.DefaultScalar? && (forall j :: 0 <= j <= i ==> key !in path[j].values)
    && (forall j :: 0 <= j < i && path[j].defaults.DefaultSection? ==> key !in path[j].defaults.values)
  }

  lemma {:induction false} FetchScalar(path: seq<Section>, key: string, i: nat)
    requires i <= |path|
    requires forall j :: 0 <= j < i ==> key !in path[j].values && !path[j].defaults.DefaultScalar?
    requires forall j :: 0 <= j < i && path[j].defaults.DefaultSection? ==> key !in path[j].defaults.values
    ensures Fetch(path, key, i) == Fail(NotASection) <==> HitsScalar(path, key)
    decreases |path| - i
  {
    if i < |path| && key !in path[i].values {
      if path[i].defaults.DefaultScalar? {
        assert ScalarAt(path, key, i);
      } else if !(path[i].defaults.DefaultSection? && key in path[i].defaults.values) {
        FetchScalar(path, key, i + 1);
      }
    }
  }

  /** Substitution ends, and on its way looks up a key that comes to such a DEFAULT. */
  ghost predicate RunsIntoScalar(path: seq<Section>, value: string) {
    exists n :: Substitute(path, value, n) != OutOfFuel && LooksUpScalar(path, value, n)
  }

  ghost predicate LooksUpScalar(path: seq<Section>, value: string, n: nat) {
    exists k :: LooksUp(path, value, k, n) && HitsScalar(path, k)
  }

  lemma {:induction false} SubstituteScalarIff(path: seq<Section>, value: string, n: nat)
    requires Substitute(path, value, n) != OutOfFuel
    ensures Substitute(path, value, n) == Done(Fail(NotASection)) <==> LooksUpScalar(path, value, n)
    decreases n, |value|
  {
    hide HitsScalar;
    var found := Search(value, 0);
    if found.Some? {
      var k, rest := found.value.key, value[found.value.end..];
      assert Ends(path, k, n - 1);
      FetchScalar(path, k, 0);
      if FetchesString(path, k) {
        SubstituteScalarIff(path, ValueOf(path, k), n - 1);
        if LooksUpScalar(path, ValueOf(path, k), n - 1) {
          var j :| LooksUp(path, ValueOf(path, k), j, n - 1) && HitsScalar(path, j);
          assert LooksUp(path, value, j, n);
        }
      }
      if HitsScalar(path, k) { assert LooksUp(path, value, k, n); }
      if SubstituteKey(path, k, n - 1).r.Ok? {
        SubstituteScalarIff(path, rest, n);
        if LooksUpScalar(path, rest, n) {
          var j :| LooksUp(path, rest, j, n) && HitsScalar(path, j);
          assert LooksUp(path, value, j, n);
        }
      }
      if LooksUpScalar(path, value, n) { ScalarComesFrom(path, value, n); }
    }
  }

  /** The key that does so is the first reference, or looked up for it, or for the rest. */
  lemma ScalarComesFrom(path: seq<Section>, value: string, n: nat)
    requires Search(value, 0).Some? && LooksUpScalar(path, value, n)
    ensures n > 0
    ensures var m := Search(value, 0).value;
            || HitsScalar(path, m.key) || (FetchesString(path, m.key) && LooksUpScalar(path, ValueOf(path, m.key), n - 1))
            || (SubstituteKey(path, m.key, n - 1).Done? && SubstituteKey(path, m.key, n - 1).r.Ok?
                && LooksUpScalar(path, value[m.end..], n))
  {
    hide HitsScalar;
    var k :| LooksUp(path, value, k, n) && HitsScalar(path, k);
  }

  lemma EndsInScalar(path: seq<Section>, value: string)
    requires RunsIntoScalar(path, value)
    ensures !NeverEnds(path, value)
  {
    hide LooksUpScalar;
  }

  /** Expansion stops at such a DEFAULT exactly if substitution does and it has not stopped at a loop before. */
  lemma ScalarIff(path: seq<Section>, value: string, trail: set<Marker>)
    ensures Expand(path, value, trail) == Fail(NotASection) <==>
              !IsLoop(Expand(path, value, trail)) && RunsIntoScalar(path, value)
  {
    hide Expand, Substitute, LooksUp, HitsScalar;
    var r := Expand(path, value, trail);
    if !IsLoop(r) {
      var n := ExpandSubstitutes(path, value, trail);
      SubstituteScalarIff(path, value, n);
      forall m | Substitute(path, value, m) != OutOfFuel && LooksUpScalar(path, value, m) ensures r == Fail(NotASection) {
        SubstituteScalarIff(path, value, m);
        OneOutcome(path, value, r, Fail(NotASection));
      }
    }
  }

  /** The DEFAULT of [a] k = %(x)s, DEFAULT = 1 is no section: reading k fails with it. */
  lemma ScalarDefault()
    ensures var path := [Section("a", map["k" := Str("%(x)s"), "DEFAULT" := Str("1")], DefaultScalar)];
            && HitsScalar(path, "x") && RunsIntoScalar(path, "%(x)s")
            && Interpolate(path, "k", "%(x)s", 0, {}) == Fail(NotASection)
  {
    var path := [Section("a", map["k" := Str("%(x)s"), "DEFAULT" := Str("1")], DefaultScalar)];
    XReference();
    assert ScalarAt(path, "x", 0);
    FetchScalar(path, "x", 0);
    assert LooksUp(path, "%(x)s", "x", 1) && Substitute(path, "%(x)s", 1) == Done(Fail(NotASection));
    assert LooksUpScalar(path, "%(x)s", 1);
    assert Lookup(path, "x", {} + {("k", "a")}) == Fail(NotASection);
  }

  // ---------- the engine ----------

  function Prefixed(done: string, r: Result<string>): Result<string> {
    match r
    case Ok(rest) => Ok(done + rest)
    case Fail(f) => Fail(f)
  }

  lemma SearchOn(value: string, from: nat)
    requires from <= |value|
    ensures Search(value, from) == Shift(Search(value[from..], 0), from)
  {
    hide Search;
    SearchShift(value[..from], value[from..], 0);
    assert value[..from] + value[from..] == value;
  }

  lemma PrefixedTwice(a: string, b: string, c: string, r: Result<string>)
    ensures Prefixed(a, Prefixed(b + c, r)) == Prefixed(a + b + c, r)
    ensures Prefixed([], r) == r
  {
    if r.Ok? {
      assert a + (b + c + r.value) == a + b + c + r.value;
      assert [] + r.value == r.value;
    }
  }

  lemma ExpandFirst(path: seq<Section>, rest: string, trail: set<Marker>)
    requires Search(rest, 0).Some? && Lookup(path, Search(rest, 0).value.key, trail).Ok?
    ensures var m := Search(rest, 0).value;
            Expand(path, rest, trail) ==
            Prefixed(rest[..m.start] + Lookup(path, m.key, trail).value, Expand(path, rest[m.end..], trail))
  {
  }

  lemma SplicePieces(value: string, replacement: string, from: nat, start: nat, end: nat)
    requires from <= start <= end <= |value|
    ensures var value' := value[..start] + replacement + value[end..];
            var from' := start + |replacement|;
            && value'[..from'] == value[..from] + value[from..][..start - from] + replacement
            && value'[from'..] == value[from..][end - from..] == value[end..]
  {
    var value' := value[..start] + replacement + value[end..];
    var from' := start + |replacement|;
    assert value'[..from'] == value[..start] + replacement;
    assert value[..start] == value[..from] + value[from..][..start - from];
    assert value'[from'..] == value[end..];
    assert value[from..][end - from..] == value[end..];
  }

  /** One turn of the loop: splice the replacement in and go on behind it. */
  lemma Spliced(path: seq<Section>, value: string, from: nat, trail: set<Marker>)
    requires from <= |value| && Search(value, from).Some?
    requires Lookup(path, Search(value, from).value.key, trail).Ok?
    ensures var m := Search(value, from).value;
            var replacement := Lookup(path, m.key, trail).value;
            var value' := value[..m.start] + replacement + value[m.end..];
            var from' := m.start + |replacement|;
            Prefixed(value[..from], Expand(path, value[from..], trail)) ==
            Prefixed(value'[..from'], Expand(path, value'[from'..], trail))
  {
    hide Expand, Lookup, Search;
    SearchOn(value, from);
    var m := Search(value, from).value;
    var replacement := Lookup(path, m.key, trail).value;
    ExpandFirst(path, value[from..], trail);
    SplicePieces(value, replacement, from, m.start, m.end);
    PrefixedTwice(value[..from], value[from..][..m.start - from], replacement, Expand(path, value[m.end..], trail));
  }

  lemma InterpolateScalarIff(path: seq<Section>, key: string, value: string, level: nat, trail: set<Marker>)
    requires level < |path|
    ensures var r := Interpolate(path, key, value, level, trail);
            r == Fail(NotASection) <==> !IsLoop(r) && RunsIntoScalar(path, value)
  {
    if MarkerOf(path, key, level) !in trail { ScalarIff(path, value, trail + {MarkerOf(path, key, level)}); }
  }

  function AsValue(r: Result<string>): Result<Value> {
    match r
    case Ok(s) => Ok(Str(s))
    case Fail(f) => Fail(f)
  }

  /** The owner without a key. */
  function Without(path: seq<Section>, key: string): (r: seq<Section>)
    requires |path| > 0
    ensures |r| == |path| && r[0].name == path[0].name && r[1..] == path[1..]
    ensures key !in r[0].values && r[0].defaults == (if key == "DEFAULT" then NoDefaults else path[0].defaults)
    ensures forall k :: k != key ==> (k in r[0].values <==> k in path[0].values) &&
                                     (k in r[0].values ==> r[0].values[k] == path[0].values[k])
  {
    var s := path[0];
    path[0 := Section(s.name, s.values - {key}, if key == "DEFAULT" then NoDefaults else s.defaults)]
  }

  /** path: the owning section, its parent, and so on to the top level. */
  class Engine {
    var path: seq<Section>
    var interpolation: bool
    var backtrail: set<Marker>

    constructor (path: seq<Section>, interpolation: bool)
      ensures this.path == path && this.interpolation == interpolation && backtrail == {}
    {
      this.path := path;
      this.interpolation := interpolation;
      backtrail := {};
    }

    /** A DEFAULT that is not a section escapes before interpolation is switched on again. */
    method FetchKey(key: string) returns (r: Result<Found>)
      modifies this`interpolation
      ensures r == Fetch(path, key, 0) && IsFetched(path, key, r) && (r == Fail(NotASection) <==> HitsScalar(path, key))
      ensures interpolation == (if HitsScalar(path, key) then false else old(interpolation))
    {
      hide HitsScalar, FirstWith;
      FetchIs(path, key);
      var saved := interpolation;
      interpolation := false;
      var i := 0;
      r := Fail(Missing(key));
      while i < |path|
        invariant 0 <= i <= |path| && Fetch(path, key, 0) == Fetch(path, key, i)
        invariant r == Fail(Missing(key))
      {
        var s := path[i];
        if key in s.values {
          r := Ok(Found(s.values[key], i));
          break;
        }
        if s.defaults.DefaultScalar? { return Fail(NotASection); }
        if s.defaults.DefaultSection? && key in s.defaults.values {
          r := Ok(Found(s.defaults.values[key], i));
          break;
        }
        i := i + 1;
      }
      interpolation := saved;
    }

    method RecursiveInterpolate(key: string, value0: string, level: nat) returns (r: Result<string>)
      requires level < |path|
      modifies this`interpolation, this`backtrail
      ensures r == Interpolate(path, key, value0, level, old(backtrail))
      ensures r.Ok? ==> backtrail == old(backtrail)
      ensures interpolation == (if !IsLoop(r) && RunsIntoScalar(path, value0) then false else old(interpolation))
      decreases Universe(path) + {MarkerOf(path, key, level)} - backtrail, 0
    {
      hide RunsIntoScalar, HitsScalar, Substitute, LooksUp, MatchAt, Search, Universe, Fetch, IsFetched;
      InterpolateScalarIff(path, key, value0, level, backtrail);
      var m := MarkerOf(path, key, level);
      if m in backtrail { return Fail(Loop(key)); }
      ghost var trail := backtrail + {m};
      assert m in Universe(path) + {m} - backtrail && m !in Universe(path) - trail;
      backtrail := backtrail + {m};
      var value, from := value0, 0;
      ghost var rest := value0;
      var found := Search(value, from);
      PrefixedTwice([], [], [], Expand(path, value0, trail));
      while found.Some?
        invariant from <= |value| && rest == value[from..] && found == Search(value, from)
        invariant backtrail == trail && interpolation == old(interpolation)
        invariant Expand(path, value0, trail) == Prefixed(value[..from], Expand(path, rest, trail))
        decreases |value| - from
      {
        SearchOn(value, from);
        var start, end := found.value.start, found.value.end;
        var reference := FetchKey(found.value.key);
        if reference.Fail? { return Fail(reference.fault); }
        var Found(v, at) := reference.value;
        if v.Other? {
          return if MarkerOf(path, found.value.key, at) in backtrail then Fail(Loop(found.value.key)) else Fail(NotAString);
        }
        InUniverse(path, at, found.value.key);
        assert Universe(path) + {MarkerOf(path, found.value.key, at)} == Universe(path);
        InterpolateScalarIff(path, found.value.key, v.s, at, backtrail);
        var replacement := RecursiveInterpolate(found.value.key, v.s, at);
        if replacement.Fail? { return replacement; }
        Spliced(path, value, from, trail);
        value := value[..start] + replacement.value + value[end..];
        from := start + |replacement.value|;
        rest := value[from..];
        found := Search(value, from);
      }
      SearchOn(value, from);
      assert value == value[..from] + rest;
      backtrail := backtrail - {m};
      assert backtrail == old(backtrail);
      r := Ok(value);
    }

    /** interpolate: a string of the owning section, or one that was there; it starts from an empty backtrail. */
    method InterpolateOption(key: string, value: string) returns (r: Result<string>)
      requires |path| > 0
      modifies this`interpolation, this`backtrail
      ensures r == Interpolate(path, key, value, 0, {})
      ensures IsLoop(r) <==> NeverEnds(path, value) || ComesBack(path, key, value)
      ensures !IsLoop(r) ==> forall r' :: EndsAs(path, value, r') <==> r' == r
      ensures r.Ok? ==> backtrail == {}
      ensures interpolation ==
              (if RunsIntoScalar(path, value) && !ComesBack(path, key, value) then false else old(interpolation))
    {
      hide RunsIntoScalar, NeverEnds, ComesBack, EndsAs, Interpolate;
      backtrail := {};
      ReadMeans(path, key, value);
      if RunsIntoScalar(path, value) { EndsInScalar(path, value); }
      r := RecursiveInterpolate(key, value, 0);
    }

    /** __getitem__. */
    method GetItem(key: string) returns (r: Result<Value>)
      requires |path| > 0
      modifies this`interpolation, this`backtrail
      ensures key !in path[0].values ==> r == Fail(NoKey(key))
      ensures key in path[0].values && (path[0].values[key].Other? || !old(interpolation)) ==> r == Ok(path[0].values[key])
      ensures key in path[0].values && path[0].values[key].Str? && old(interpolation) ==>
                var value := path[0].values[key].s;
                var out := Interpolate(path, key, value, 0, {});
                && r == AsValue(out) && (IsLoop(out) <==> NeverEnds(path, value))
                && (!IsLoop(out) ==> EndsAs(path, value, out))
      ensures interpolation ==
              (if key in path[0].values && path[0].values[key].Str? && RunsIntoScalar(path, path[0].values[key].s) then false
               else old(interpolation))
    {
      hide RunsIntoScalar, NeverEnds, ComesBack, EndsAs, Interpolate;
      if key !in path[0].values { return Fail(NoKey(key)); }
      var value := path[0].values[key];
      if !interpolation || value.Other? { return Ok(value); }
      NeverComesBack(path, key);
      var out := InterpolateOption(key, value.s);
      r := AsValue(out);
    }

    /** pop: the key is gone before its value is interpolated. */
    method Pop(key: string) returns (r: Result<Value>)
      requires |path| > 0
      modifies this
      ensures path == if key in old(path)[0].values then Without(old(path), key) else old(path)
      ensures key !in old(path)[0].values ==> r == Fail(NoKey(key))
      ensures key in old(path)[0].values && (old(path)[0].values[key].Other? || !old(interpolation)) ==>
                r == Ok(old(path)[0].values[key])
      ensures key in old(path)[0].values && old(path)[0].values[key].Str? && old(interpolation) ==>
                var value := old(path)[0].values[key].s;
                var out := Interpolate(path, key, value, 0, {});
                && r == AsValue(out) && (IsLoop(out) <==> NeverEnds(path, value) || ComesBack(path, key, value))
                && (!IsLoop(out) ==> EndsAs(path, value, out))
      ensures interpolation ==
              (if key in old(path)[0].values && old(path)[0].values[key].Str?
                  && RunsIntoScalar(path, old(path)[0].values[key].s) && !ComesBack(path, key, old(path)[0].values[key].s)
               then false else old(interpolation))
    {
      hide RunsIntoScalar, NeverEnds, ComesBack, EndsAs, Interpolate;
      if key !in path[0].values { return Fail(NoKey(key)); }
      var value := path[0].values[key];
      path := Without(path, key);
      if !interpolation || value.Other? { return Ok(value); }
      var out := InterpolateOption(key, value.s);
      r := AsValue(out);
    }
  }
}
