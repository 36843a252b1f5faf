/**
 The search of scripts/check_test_list.py for a test method in a class or the classes it inherits
 from, over the class tables of several modules, and its match of numbered expansions.
 */
module MethodSearch {
  import opened Sequences
  import opened Reachability

  datatype ClassInfo = ClassInfo(methods: set<string>, bases: seq<string>)

  /** The class tables of the parsed modules; a module that did not parse has none. */
  type Cache = seq<Option<map<string, ClassInfo>>>

  // ---------------------------------------------------------------------------
  // Numbered expansions
  // ---------------------------------------------------------------------------

  /** What may follow the digits: an underscore, or the end, which a final line break may follow. */
  predicate EndsNumber(rest: string) { rest == "" || rest == "\n" || rest[0] == '_' }

  /** `name` is `stem`, an underscore and one or more digits that end there. */
  ghost predicate Expands(isDigit: char -> bool, name: string, stem: string) {
    exists digits, rest :: ExpandsAs(isDigit, name, stem, digits, rest)
  }

  ghost predicate ExpandsAs(isDigit: char -> bool, name: string, stem: string, digits: string, rest: string) {
    && name == stem + "_" + digits + rest
    && digits != [] && (forall i | 0 <= i < |digits| :: isDigit(digits[i]))
    && (rest == "" || rest == "\n" || exists more :: rest == "_" + more)
  }

  lemma EndsNumberExactly(rest: string)
    ensures EndsNumber(rest) <==> rest == "" || rest == "\n" || exists more :: rest == "_" + more
  {
    if rest != "" && rest[0] == '_' { assert rest == "_" + rest[1..]; }
  }

  /** The digits of an expansion are all the digits there are. */
  lemma AllDigits(isDigit: char -> bool, suffix: string, n: nat, digits: string, rest: string)
    requires !isDigit('_') && !isDigit('\n')
    requires n <= |suffix| && (forall i | 0 <= i < n :: isDigit(suffix[i])) && (n < |suffix| ==> !isDigit(suffix[n]))
    requires suffix == digits + rest && (forall i | 0 <= i < |digits| :: isDigit(digits[i])) && EndsNumber(rest)
    ensures digits == suffix[..n] && rest == suffix[n..]
  {
    assert forall i | 0 <= i < |digits| :: suffix[i] == digits[i];
    assert rest != "" ==> suffix[|digits|] == rest[0] && !isDigit(rest[0]);
    assert n == |digits|;
  }

  lemma AfterStem(stem: string, digits: string, rest: string)
    ensures (stem + "_" + digits + rest)[|stem| + 1..] == digits + rest
  {
    assert stem + "_" + digits + rest == (stem + "_") + (digits + rest);
  }

  /** Taking as many digits as there are decides whether some number of digits will do. */
  method MatchesExpansion(isDigit: char -> bool, name: string, stem: string) returns (r: bool)
    requires !isDigit('_') && !isDigit('\n')
    ensures r <==> Expands(isDigit, name, stem)
  {
    if !(stem + "_" <= name) {
      assert forall d, t :: name == stem + "_" + d + t ==> stem + "_" <= name;
      return false;
    }
    var suffix := name[|stem| + 1..];
    var n := 0;
    while n < |suffix| && isDigit(suffix[n])
      invariant 0 <= n <= |suffix| && forall i | 0 <= i < n :: isDigit(suffix[i])
    {
      n := n + 1;
    }
    assert name == stem + "_" + suffix[..n] + suffix[n..];
    r := n > 0 && EndsNumber(suffix[n..]);
    EndsNumberExactly(suffix[n..]);
    if r { assert ExpandsAs(isDigit, name, stem, suffix[..n], suffix[n..]); }
    if Expands(isDigit, name, stem) {
      var digits, rest :| ExpandsAs(isDigit, name, stem, digits, rest);
      EndsNumberExactly(rest);
      AfterStem(stem, digits, rest);
      AllDigits(isDigit, suffix, n, digits, rest);
    }
  }

  method MatchesParameterized(isDigit: char -> bool, name: string, methods: set<string>) returns (r: bool)
    requires !isDigit('_') && !isDigit('\n')
    ensures r <==> exists m :: m in methods && Expands(isDigit, name, m)
  {
    var rest := methods;
    while rest != {}
      invariant rest <= methods
      invariant forall m | m in methods - rest :: !Expands(isDigit, name, m)
      decreases rest
    {
      var m :| m in rest;
      var found := MatchesExpansion(isDigit, name, m);
      if found { return true; }
      rest := rest - {m};
    }
    return false;
  }

  // ---------------------------------------------------------------------------
  // The search
  // ---------------------------------------------------------------------------

  ghost predicate Declares(cache: Cache, i: int, className: string) {
    0 <= i < |cache| && cache[i].Some? && className in cache[i].value
  }

  /** Some module's class of that name defines the method or a method that expands to it. */
  ghost predicate Defines(isDigit: char -> bool, cache: Cache, className: string, name: string) {
    exists i :: Declares(cache, i, className) && DefinesIn(isDigit, cache[i].value[className], name)
  }

  ghost predicate DefinesIn(isDigit: char -> bool, info: ClassInfo, name: string) {
    name in info.methods || exists m :: m in info.methods && Expands(isDigit, name, m)
  }

  /** The base classes of a class, over all modules that declare one of that name. */
  ghost function Bases(cache: Cache, className: string): set<string> {
    set i, b | 0 <= i < |cache| && Declares(cache, i, className) && b in cache[i].value[className].bases :: b
  }

  /** The names of all classes. */
  ghost function Declared(cache: Cache): set<string> {
    set i, c | 0 <= i < |cache| && cache[i].Some? && c in cache[i].value :: c
  }

  ghost function Inherits(cache: Cache): Graph {
    map c | c in Declared(cache) :: Bases(cache, c)
  }

  lemma BaseIsNext(cache: Cache, i: int, className: string, base: string)
    requires Declares(cache, i, className) && base in cache[i].value[className].bases
    ensures base in Next(Inherits(cache), className)
  {
  }

  /** Some class inherited by `className`, or itself, defines the method. */
  ghost predicate Found(isDigit: char -> bool, cache: Cache, className: string, name: string) {
    exists c :: Reaches(Inherits(cache), className, c) && Defines(isDigit, cache, c, name)
  }

  /** The visited classes beyond `before` define nothing, and their bases have been visited. */
  ghost predicate Exhausted(isDigit: char -> bool, cache: Cache, name: string, before: set<string>,
                            visited: set<string>) {
    && before <= visited
    && forall c | c in visited - before :: !Defines(isDigit, cache, c, name) && Bases(cache, c) <= visited
  }

  class Search {
    const isDigit: char -> bool
    const cache: Cache
    const name: string
    var visited: set<string>

    constructor (isDigit: char -> bool, cache: Cache, name: string)
      ensures this.isDigit == isDigit && this.cache == cache && this.name == name && visited == {}
    {
      this.isDigit, this.cache, this.name := isDigit, cache, name;
      visited := {};
    }

    method HasMethod(className: string) returns (r: bool)
      requires !isDigit('_') && !isDigit('\n')
      modifies this
      ensures r ==> Found(isDigit, cache, className, name)
      ensures !r ==> className in visited && Exhausted(isDigit, cache, name, old(visited), visited)
      ensures old(visited) <= visited
      decreases Declared(cache) - visited, 1
    {
      if className in visited { return false; }
      visited := visited + {className};
      for i := 0 to |cache|
        invariant old(visited) + {className} <= visited
        invariant Exhausted(isDigit, cache, name, old(visited) + {className}, visited)
        invariant forall k | 0 <= k < i && Declares(cache, k, className) ::
                    && !DefinesIn(isDigit, cache[k].value[className], name)
                    && forall b | b in cache[k].value[className].bases :: b in visited
      {
        if cache[i].None? || cache[i].value == map[] || className !in cache[i].value { continue; }
        assert Declares(cache, i, className) && className in Declared(cache);
        var info := cache[i].value[className];
        ReachesSelf(Inherits(cache), className);
        if name in info.methods { return true; }
        var expanded := MatchesParameterized(isDigit, name, info.methods);
        if expanded { return true; }
        for j := 0 to |info.bases|
          invariant old(visited) + {className} <= visited
          invariant Exhausted(isDigit, cache, name, old(visited) + {className}, visited)
          invariant forall k | 0 <= k < i && Declares(cache, k, className) ::
                      forall b | b in cache[k].value[className].bases :: b in visited
          invariant forall k | 0 <= k < j :: info.bases[k] in visited
        {
          r := HasMethod(info.bases[j]);
          if r {
            BaseIsNext(cache, i, className, info.bases[j]);
            FoundAbove(isDigit, cache, className, info.bases[j], name);
            return;
          }
        }
      }
      return false;
    }
  }

  /** What a base class finds, the class finds. */
  lemma FoundAbove(isDigit: char -> bool, cache: Cache, className: string, base: string, name: string)
    requires base in Next(Inherits(cache), className) && Found(isDigit, cache, base, name)
    ensures Found(isDigit, cache, className, name)
  {
    var g := Inherits(cache);
    var c :| Reaches(g, base, c) && Defines(isDigit, cache, c, name);
    var p :| Joins(g, p, base, c);
    assert Joins(g, [className] + p, className, c);
  }

  /** A search that exhausted everything it visited, from nothing, would have found the method. */
  lemma NothingFound(isDigit: char -> bool, cache: Cache, className: string, name: string, visited: set<string>)
    requires className in visited && Exhausted(isDigit, cache, name, {}, visited)
    ensures !Found(isDigit, cache, className, name)
  {
    var g := Inherits(cache);
    forall c | Reaches(g, className, c) ensures !Defines(isDigit, cache, c, name) {
      ClosedHoldsReachable(g, visited, className, c);
    }
  }

  /**
   Started with nothing visited, the search ends, whatever the class tables, and succeeds exactly
   when the class or a class it inherits from defines the method or a method that expands to it.
   */
  method ClassHasMethod(isDigit: char -> bool, cache: Cache, className: string, name: string) returns (r: bool)
    requires !isDigit('_') && !isDigit('\n')
    ensures r <==> Found(isDigit, cache, className, name)
  {
    var search := new Search(isDigit, cache, name);
    r := search.HasMethod(className);
    if !r { NothingFound(isDigit, cache, className, name, search.visited); }
  }
}
