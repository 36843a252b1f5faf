/**
 The canonical form of cmake configure arguments that scripts/build_wheel.py fingerprints: for each
 cache variable its last definition, and the other arguments, both in sorted order.
 */
module ConfigureArgs {
  import opened Sequences
  import opened Sorting
  import opened Strings

  // ---------------------------------------------------------------------------
  // Names
  // ---------------------------------------------------------------------------

  predicate IsQuote(c: char) { c == '"' }

  /** The text before the first occurrence of the character, or all of it. */
  function Before(s: string, c: char): string { s[..IndexOf(s, c)] }

  /** The cache variable an argument defines, if it defines one. */
  function DefineName(isSpace: Spaces, arg: string): Option<string> {
    var token := Strip(IsQuote, Strip(isSpace, arg));
    if !("-D" <= token) then None
    else
      var name := Before(Before(token[2..], '='), ':');
      if name == "" then None else Some(name)
  }

  lemma BeforeFirst(a: string, c: char, rest: string)
    requires c !in a && (rest == "" || rest[0] == c)
    ensures Before(a + rest, c) == a
  {
    var s := a + rest;
    var k := IndexOf(s, c);
    assert forall i | 0 <= i < |a| :: s[i] == a[i];
    assert rest != "" ==> s[|a|] == c && c in s[..|a| + 1];
    assert k == |a|;
  }

  /** Padding and quotes around a definition are stripped. */
  lemma {:induction false} TokenOf(isSpace: Spaces, pre: string, left: string, token: string, right: string,
                                   post: string)
    requires !isSpace('"') && AllSpaces(isSpace, pre) && AllSpaces(isSpace, post)
    requires AllSpaces(IsQuote, left) && AllSpaces(IsQuote, right)
    requires token != "" && !isSpace(token[0]) && !IsQuote(token[0])
    requires !isSpace(token[|token| - 1]) && !IsQuote(token[|token| - 1])
    ensures Strip(IsQuote, Strip(isSpace, pre + (left + token + right) + post)) == token
  {
    var quoted := left + token + right;
    assert quoted[0] == (if left == "" then token[0] else left[0]);
    assert quoted[|quoted| - 1] == (if right == "" then token[|token| - 1] else right[|right| - 1]);
    StripExact(isSpace, pre, quoted, post);
    StripExact(IsQuote, left, token, right);
  }

  /** Padding, quotes, the type and the value do not change which variable an argument defines. */
  lemma {:induction false} NameOfDefine(isSpace: Spaces, pre: string, left: string, name: string, kind: string,
                                        value: string, right: string, post: string)
    requires !isSpace('"') && !isSpace('-')
    requires AllSpaces(isSpace, pre) && AllSpaces(isSpace, post) && AllSpaces(IsQuote, left)
             && AllSpaces(IsQuote, right)
    requires name != "" && '=' !in name && ':' !in name
    requires (kind == "" || kind[0] == ':') && '=' !in kind && (value == "" || value[0] == '=')
    requires var text := name + kind + value; !isSpace(text[|text| - 1]) && text[|text| - 1] != '"'
    ensures DefineName(isSpace, pre + (left + ("-D" + (name + kind + value)) + right) + post) == Some(name)
  {
    var text := name + kind + value;
    var token := "-D" + text;
    assert token[|token| - 1] == text[|text| - 1];
    TokenOf(isSpace, pre, left, token, right, post);
    assert token[2..] == text;
    BeforeFirst(name + kind, '=', value);
    BeforeFirst(name, ':', kind);
  }

  /**
   Exactly which arguments define a variable: stripped of padding and then of quotes, the argument is
   -D, the name, and the end, a type or a value. An argument of any other form defines nothing.
   */
  lemma DefinesExactly(isSpace: Spaces, arg: string, name: string)
    ensures DefineName(isSpace, arg) == Some(name) <==>
              && name != "" && '=' !in name && ':' !in name
              && exists rest :: && (rest == "" || rest[0] == '=' || rest[0] == ':')
                                && Strip(IsQuote, Strip(isSpace, arg)) == "-D" + (name + rest)
  {
    var token := Strip(IsQuote, Strip(isSpace, arg));
    if DefineName(isSpace, arg) == Some(name) {
      var text := token[2..];
      var first := Before(text, '=');
      assert token == "-D" + text;
      assert text == name + text[|name|..];
      assert |name| < |text| ==> text[|name|] == '=' || text[|name|] == ':';
    }
    forall rest | (rest == "" || rest[0] == '=' || rest[0] == ':') && token == "-D" + (name + rest)
                  && name != "" && '=' !in name && ':' !in name
      ensures DefineName(isSpace, arg) == Some(name)
    {
      assert token[2..] == name + rest;
      NameBeforeRest(name, rest);
    }
  }

  lemma NameBeforeRest(name: string, rest: string)
    requires '=' !in name && ':' !in name && (rest == "" || rest[0] == '=' || rest[0] == ':')
    ensures Before(Before(name + rest, '='), ':') == name
  {
    var text := name + rest;
    var k := IndexOf(text, '=');
    assert k >= |name|;
    var first := text[..k];
    assert first == name + rest[..k - |name|];
    BeforeFirst(name, ':', rest[..k - |name|]);
  }

  // ---------------------------------------------------------------------------
  // The configuration a list of arguments means
  // ---------------------------------------------------------------------------

  /** The last definition of a cache variable, which is the one that counts. */
  function LastDefinition(isSpace: Spaces, args: seq<string>, name: string): Option<string> {
    if args == [] then None
    else
      var last := args[|args| - 1];
      if DefineName(isSpace, last) == Some(name) then Some(last)
      else LastDefinition(isSpace, args[..|args| - 1], name)
  }

  /** The arguments that define nothing. */
  function Others(isSpace: Spaces, args: seq<string>): seq<string> {
    if args == [] then []
    else
      var rest, last := Others(isSpace, args[..|args| - 1]), args[|args| - 1];
      if DefineName(isSpace, last).None? then rest + [last] else rest
  }

  ghost predicate SameDefinitions(isSpace: Spaces, a: seq<string>, b: seq<string>) {
    forall name :: LastDefinition(isSpace, a, name) == LastDefinition(isSpace, b, name)
  }

  ghost predicate SameConfiguration(isSpace: Spaces, a: seq<string>, b: seq<string>) {
    && SameDefinitions(isSpace, a, b)
    && multiset(Others(isSpace, a)) == multiset(Others(isSpace, b))
  }

  lemma {:induction false} DefinitionDefines(isSpace: Spaces, args: seq<string>, name: string)
    requires LastDefinition(isSpace, args, name).Some?
    ensures DefineName(isSpace, LastDefinition(isSpace, args, name).value) == Some(name)
  {
    if args != [] && DefineName(isSpace, args[|args| - 1]) != Some(name) {
      DefinitionDefines(isSpace, args[..|args| - 1], name);
    }
  }

  lemma {:induction false} OthersDefineNothing(isSpace: Spaces, args: seq<string>)
    ensures forall x | x in Others(isSpace, args) :: DefineName(isSpace, x).None?
  {
    if args != [] { OthersDefineNothing(isSpace, args[..|args| - 1]); }
  }

  // ---------------------------------------------------------------------------
  // The canonical form
  // ---------------------------------------------------------------------------

  /** Strings in the order of their characters. */
  predicate Lex(a: string, b: string) {
    a == "" || (b != "" && (a[0] < b[0] || (a[0] == b[0] && Lex(a[1..], b[1..]))))
  }

  lemma {:induction false} LexTotal(a: string, b: string)
    ensures Lex(a, b) || Lex(b, a)
    ensures Lex(a, b) && Lex(b, a) ==> a == b
  {
    if a != "" && b != "" && a[0] == b[0] {
      LexTotal(a[1..], b[1..]);
      assert a == [a[0]] + a[1..] && b == [b[0]] + b[1..];
    }
  }

  lemma {:induction false} LexTransitive(a: string, b: string, c: string)
    requires Lex(a, b) && Lex(b, c)
    ensures Lex(a, c)
  {
    if a != "" && a[0] == b[0] == c[0] { LexTransitive(a[1..], b[1..], c[1..]); }
  }

  lemma LexIsOrder()
    ensures TotalOrder(Lex)
  {
    forall x, y ensures Lex(x, y) || Lex(y, x) { LexTotal(x, y); }
    forall x, y | Lex(x, y) && Lex(y, x) ensures x == y { LexTotal(x, y); }
    forall x, y, z | Lex(x, y) && Lex(y, z) ensures Lex(x, z) { LexTransitive(x, y, z); }
  }

  ghost predicate Wins(isSpace: Spaces, args: seq<string>, name: string, x: string) {
    LastDefinition(isSpace, args, name) == Some(x)
  }

  /** The winning definitions, one for each variable, in any order. */
  ghost predicate Winners(isSpace: Spaces, args: seq<string>, values: seq<string>) {
    && (forall x :: x in values <==> exists name :: Wins(isSpace, args, name, x))
    && Distinct(values)
  }

  /** Sorted winners, then the sorted others. */
  ghost predicate IsCanonical(isSpace: Spaces, args: seq<string>, canonical: seq<string>) {
    exists values :: Winners(isSpace, args, values) && canonical == Sort(values, Lex) + Sort(Others(isSpace, args), Lex)
  }

  method Canonical(isSpace: Spaces, args: seq<string>) returns (canonical: seq<string>)
    ensures IsCanonical(isSpace, args, canonical)
  {
    var effective: map<string, string> := map[];
    var keys: seq<string>, others: seq<string> := [], [];
    for i := 0 to |args|
      invariant Distinct(keys) && forall k :: k in keys <==> k in effective
      invariant forall k :: LastDefinition(isSpace, args[..i], k) == if k in effective then Some(effective[k]) else None
      invariant others == Others(isSpace, args[..i])
    {
      assert args[..i + 1][..i] == args[..i];
      var name := DefineName(isSpace, args[i]);
      if name.None? {
        others := others + [args[i]];
      } else {
        if name.value !in effective { keys := keys + [name.value]; }
        effective := effective[name.value := args[i]];
      }
    }
    assert args[..|args|] == args;
    var values := seq(|keys|, i requires 0 <= i < |keys| => assert keys[i] in keys; effective[keys[i]]);
    ValuesWin(isSpace, args, keys, effective, values);
    canonical := Sort(values, Lex) + Sort(others, Lex);
  }

  /** The values of the dictionary are the winners. */
  lemma {:induction false} ValuesWin(isSpace: Spaces, args: seq<string>, keys: seq<string>,
                                     effective: map<string, string>, values: seq<string>)
    requires Distinct(keys) && forall k :: k in keys <==> k in effective
    requires forall k :: LastDefinition(isSpace, args, k) == if k in effective then Some(effective[k]) else None
    requires |values| == |keys| && forall i | 0 <= i < |keys| :: keys[i] in effective && values[i] == effective[keys[i]]
    ensures Winners(isSpace, args, values)
  {
    forall i: nat | i < |keys|
      ensures Wins(isSpace, args, keys[i], values[i]) && DefineName(isSpace, values[i]) == Some(keys[i])
    {
      DefinitionDefines(isSpace, args, keys[i]);
    }
    forall x ensures x in values <==> exists name :: Wins(isSpace, args, name, x) {
      if name :| Wins(isSpace, args, name, x) {
        assert name in keys;
        var i :| 0 <= i < |keys| && keys[i] == name;
        assert values[i] == x;
      }
    }
  }

  // ---------------------------------------------------------------------------
  // What the canonical form tells
  // ---------------------------------------------------------------------------

  /** Equal concatenations fall apart at the same place, where the elements stop having a property. */
  lemma SplitsAlike<T>(p: T -> bool, a1: seq<T>, a2: seq<T>, b1: seq<T>, b2: seq<T>)
    requires a1 + a2 == b1 + b2
    requires (forall x | x in a1 || x in b1 :: p(x)) && (forall x | x in a2 || x in b2 :: !p(x))
    ensures a1 == b1 && a2 == b2
  {
    var s := a1 + a2;
    assert forall i | 0 <= i < |s| :: p(s[i]) <==> i < |a1| by {
      assert forall i | 0 <= i < |a1| :: s[i] == a1[i] && a1[i] in a1;
      assert forall i | |a1| <= i < |s| :: s[i] == a2[i - |a1|] && a2[i - |a1|] in a2;
    }
    assert forall i | 0 <= i < |s| :: p(s[i]) <==> i < |b1| by {
      assert forall i | 0 <= i < |b1| :: s[i] == b1[i] && b1[i] in b1;
      assert forall i | |b1| <= i < |s| :: s[i] == b2[i - |b1|] && b2[i - |b1|] in b2;
    }
    assert |a1| < |s| ==> !p(s[|a1|]);
    assert |b1| < |s| ==> !p(s[|b1|]);
    assert a1 == s[..|a1|] && a2 == s[|a1|..];
  }

  /** Winners with the same elements come from the same last definitions. */
  lemma {:induction false} DefinitionsFromWinners(isSpace: Spaces, a: seq<string>, b: seq<string>, va: seq<string>,
                                                  vb: seq<string>)
    requires Winners(isSpace, a, va) && Winners(isSpace, b, vb) && multiset(va) == multiset(vb)
    ensures SameDefinitions(isSpace, a, b)
  {
    SameElements(va, vb);
    forall name ensures LastDefinition(isSpace, a, name) == LastDefinition(isSpace, b, name) {
      DefinitionOfWinner(isSpace, a, b, va, vb, name);
      DefinitionOfWinner(isSpace, b, a, vb, va, name);
    }
  }

  lemma {:induction false} WinnersFromDefinitions(isSpace: Spaces, a: seq<string>, b: seq<string>, va: seq<string>,
                                                  vb: seq<string>)
    requires Winners(isSpace, a, va) && Winners(isSpace, b, vb) && SameDefinitions(isSpace, a, b)
    ensures multiset(va) == multiset(vb)
  {
    forall x ensures x in va <==> x in vb {
      if x in va {
        var name :| Wins(isSpace, a, name, x);
        assert Wins(isSpace, b, name, x);
      }
      if x in vb {
        var name :| Wins(isSpace, b, name, x);
        assert Wins(isSpace, a, name, x);
      }
    }
    DistinctIsSet(va);
    DistinctIsSet(vb);
    assert Elements(va) == Elements(vb);
  }

  /** A definition that wins in one list is the winner of its variable in the other. */
  lemma {:induction false} DefinitionOfWinner(isSpace: Spaces, a: seq<string>, b: seq<string>, va: seq<string>,
                                              vb: seq<string>, name: string)
    requires Winners(isSpace, a, va) && Winners(isSpace, b, vb) && forall x | x in va :: x in vb
    ensures LastDefinition(isSpace, a, name).Some? ==>
              LastDefinition(isSpace, b, name) == LastDefinition(isSpace, a, name)
  {
    var d := LastDefinition(isSpace, a, name);
    if d.Some? {
      assert Wins(isSpace, a, name, d.value);
      assert d.value in va;
      var other :| Wins(isSpace, b, other, d.value);
      DefinitionDefines(isSpace, a, name);
      DefinitionDefines(isSpace, b, other);
    }
  }

  lemma {:induction false} DistinctIsSet<T>(s: seq<T>)
    requires Distinct(s)
    ensures multiset(s) == multiset(Elements(s))
  {
    if s != [] {
      DistinctIsSet(s[1..]);
      assert s == [s[0]] + s[1..];
      assert s[0] !in s[1..];
      assert Elements(s) == {s[0]} + Elements(s[1..]);
    }
  }

  /**
   Two argument lists have the same canonical form if and only if every variable's last definition
   is the same and the other arguments are the same up to order.
   */
  lemma {:induction false} CanonicalEqualExactly(isSpace: Spaces, a: seq<string>, b: seq<string>, ca: seq<string>,
                                                 cb: seq<string>)
    requires IsCanonical(isSpace, a, ca) && IsCanonical(isSpace, b, cb)
    ensures ca == cb <==> SameConfiguration(isSpace, a, b)
  {
    var va :| Winners(isSpace, a, va) && ca == Sort(va, Lex) + Sort(Others(isSpace, a), Lex);
    var vb :| Winners(isSpace, b, vb) && cb == Sort(vb, Lex) + Sort(Others(isSpace, b), Lex);
    if ca == cb { PartsEqual(isSpace, a, b, va, vb); }
    LexIsOrder();
    SortEqualExactly(va, vb, Lex);
    SortEqualExactly(Others(isSpace, a), Others(isSpace, b), Lex);
    if ca == cb { DefinitionsFromWinners(isSpace, a, b, va, vb); }
    if SameDefinitions(isSpace, a, b) { WinnersFromDefinitions(isSpace, a, b, va, vb); }
  }

  lemma {:induction false} PartsEqual(isSpace: Spaces, a: seq<string>, b: seq<string>, va: seq<string>, vb: seq<string>)
    requires Winners(isSpace, a, va) && Winners(isSpace, b, vb)
    requires Sort(va, Lex) + Sort(Others(isSpace, a), Lex) == Sort(vb, Lex) + Sort(Others(isSpace, b), Lex)
    ensures Sort(va, Lex) == Sort(vb, Lex) && Sort(Others(isSpace, a), Lex) == Sort(Others(isSpace, b), Lex)
  {
    PartsDefine(isSpace, a, va);
    PartsDefine(isSpace, b, vb);
    SplitsAlike(x => DefineName(isSpace, x).Some?,
                Sort(va, Lex), Sort(Others(isSpace, a), Lex), Sort(vb, Lex), Sort(Others(isSpace, b), Lex));
  }

  lemma {:induction false} PartsDefine(isSpace: Spaces, args: seq<string>, values: seq<string>)
    requires Winners(isSpace, args, values)
    ensures forall x | x in Sort(values, Lex) :: DefineName(isSpace, x).Some?
    ensures forall x | x in Sort(Others(isSpace, args), Lex) :: DefineName(isSpace, x).None?
  {
    SameElements(values, Sort(values, Lex));
    forall x | x in Sort(values, Lex) ensures DefineName(isSpace, x).Some? {
      assert x in values;
      var name :| Wins(isSpace, args, name, x);
      DefinitionDefines(isSpace, args, name);
    }
    SameElements(Others(isSpace, args), Sort(Others(isSpace, args), Lex));
    OthersDefineNothing(isSpace, args);
  }

  // ---------------------------------------------------------------------------
  // Reordering
  // ---------------------------------------------------------------------------

  /** The definitions of a variable, in order. */
  function Definitions(isSpace: Spaces, args: seq<string>, name: string): seq<string> {
    if args == [] then []
    else
      var rest, last := Definitions(isSpace, args[..|args| - 1], name), args[|args| - 1];
      if DefineName(isSpace, last) == Some(name) then rest + [last] else rest
  }

  /** The lists hold the same arguments, and the definitions of each variable in the same order. */
  ghost predicate Reordered(isSpace: Spaces, a: seq<string>, b: seq<string>) {
    multiset(a) == multiset(b) && forall name :: Definitions(isSpace, a, name) == Definitions(isSpace, b, name)
  }

  lemma {:induction false} LastIsLast(isSpace: Spaces, args: seq<string>, name: string)
    ensures var d := Definitions(isSpace, args, name);
            LastDefinition(isSpace, args, name) == if d == [] then None else Some(d[|d| - 1])
  {
    if args != [] { LastIsLast(isSpace, args[..|args| - 1], name); }
  }

  lemma {:induction false} OthersCounted(isSpace: Spaces, args: seq<string>, x: string)
    ensures multiset(Others(isSpace, args))[x] == if DefineName(isSpace, x).None? then multiset(args)[x] else 0
  {
    if args != [] {
      var n := |args| - 1;
      OthersCounted(isSpace, args[..n], x);
      assert args == args[..n] + [args[n]];
      assert multiset(args)[x] == multiset(args[..n])[x] + multiset{args[n]}[x];
    }
  }

  lemma {:induction false} SameOthers(isSpace: Spaces, a: seq<string>, b: seq<string>)
    requires multiset(a) == multiset(b)
    ensures multiset(Others(isSpace, a)) == multiset(Others(isSpace, b))
  {
    forall x ensures multiset(Others(isSpace, a))[x] == multiset(Others(isSpace, b))[x] {
      OthersCounted(isSpace, a, x);
      OthersCounted(isSpace, b, x);
    }
  }

  lemma {:induction false} SameLast(isSpace: Spaces, a: seq<string>, b: seq<string>)
    requires forall name :: Definitions(isSpace, a, name) == Definitions(isSpace, b, name)
    ensures SameDefinitions(isSpace, a, b)
  {
    forall name ensures LastDefinition(isSpace, a, name) == LastDefinition(isSpace, b, name) {
      LastIsLast(isSpace, a, name);
      LastIsLast(isSpace, b, name);
    }
  }

  /** Reordering arguments changes nothing as long as definitions of the same variable keep their order. */
  lemma {:induction false} ReorderingKeeps(isSpace: Spaces, a: seq<string>, b: seq<string>, ca: seq<string>,
                                           cb: seq<string>)
    requires Reordered(isSpace, a, b) && IsCanonical(isSpace, a, ca) && IsCanonical(isSpace, b, cb)
    ensures ca == cb
  {
    SameLast(isSpace, a, b);
    SameOthers(isSpace, a, b);
    CanonicalEqualExactly(isSpace, a, b, ca, cb);
  }
}
