/** The parser and the printer of test list entries, from scripts/check_test_list.py. */
module TestEntry {
  import opened Sequences
  import opened Strings

  datatype Entry = Entry(path: string, className: Option<string>, func: string, param: Option<string>)

  datatype Parsed = NotATest | Malformed(token: string) | Test(entry: Entry)

  /** Which characters count as whitespace: at least the blank, and none of the delimiters. */
  ghost predicate ValidSpaces(isSpace: Spaces) {
    isSpace(' ') && forall c | c in ":/[]-#.py" :: !isSpace(c)
  }

  // ---------------------------------------------------------------------------
  // String operations
  // ---------------------------------------------------------------------------

  /** The characters before the first whitespace. */
  function FirstWord(isSpace: Spaces, s: string): string {
    if s == "" || isSpace(s[0]) then "" else [s[0]] + FirstWord(isSpace, s[1..])
  }

  /** One past the last occurrence, or zero. */
  function AfterLast(s: string, c: char): (r: nat)
    ensures r <= |s| && (r > 0 ==> s[r - 1] == c) && c !in s[r..]
  {
    if s == "" then 0 else if s[|s| - 1] == c then |s| else AfterLast(s[..|s| - 1], c)
  }

  predicate PairAt(s: string, i: int) { 0 <= i < |s| - 1 && s[i] == ':' && s[i + 1] == ':' }

  ghost predicate NoPair(s: string) { forall i :: !PairAt(s, i) }

  /** Where the first `::` starts, or the length. */
  function FindPair(s: string): (r: nat)
    ensures r == |s| || PairAt(s, r)
    ensures forall i | 0 <= i < r :: !PairAt(s, i)
  {
    if |s| < 2 then |s| else if PairAt(s, 0) then 0 else
      var r := FindPair(s[1..]);
      assert forall i | 0 < i < |s| :: PairAt(s, i) == PairAt(s[1..], i - 1);
      1 + r
  }

  /** The pieces between occurrences of `::`, taken from the left. */
  function Split(s: string): (r: seq<string>)
    ensures r != []
    decreases |s|
  {
    var k := FindPair(s);
    if k == |s| then [s] else [s[..k]] + Split(s[k + 2..])
  }

  // ---------------------------------------------------------------------------
  // Parsing and printing
  // ---------------------------------------------------------------------------

  /** The path without a hardware qualifier before it. */
  function Unqualified(path: string): string {
    if ':' in path && '/' in path then path[IndexOf(path, '/') + 1..] else path
  }

  predicate IsPython(path: string) { |path| >= 3 && path[|path| - 3..] == ".py" }

  /** The part between the first opening and the last closing bracket. */
  function ParamOf(part: string): Option<string> {
    var open, close := IndexOf(part, '['), AfterLast(part, ']');
    if close == 0 then None else if close - 1 <= open then Some("") else Some(part[open + 1..close - 1])
  }

  function ParseParts(token: string, path: string, className: Option<string>, part: string): Parsed {
    var open := IndexOf(part, '[');
    if part[..open] == "" then Malformed(token)
    else Test(Entry(path, className, part[..open], if open == |part| then None else ParamOf(part)))
  }

  /** A token by its pieces, once the path has been taken from the first. */
  function ParsePieces(token: string, path: string, parts: seq<string>): Parsed
    requires parts != []
  {
    if |parts| == 1 || !IsPython(path) then NotATest
    else if |parts| == 2 then ParseParts(token, path, None, parts[1])
    else ParseParts(token, path, Some(parts[1]), parts[2])
  }

  function ParseToken(token: string): Parsed {
    var parts := Split(token);
    ParsePieces(token, Unqualified(parts[0]), parts)
  }

  function Parse(isSpace: Spaces, line: string): Parsed {
    var s := Strip(isSpace, line);
    if s == "" || s[0] == '#' then NotATest
    else
      var s := if "- " <= s then Strip(isSpace, s[2..]) else s;
      ParseToken(FirstWord(isSpace, s))
  }

  function Print(e: Entry): string {
    e.path + (if e.className.Some? && e.className.value != "" then "::" + e.className.value else "")
    + "::" + e.func + (if e.param.Some? && e.param.value != "" then "[" + e.param.value + "]" else "")
  }

  // ---------------------------------------------------------------------------
  // Splitting
  // ---------------------------------------------------------------------------

  /** The text before a delimiter is the first piece, unless its last colon joins the delimiter's. */
  lemma {:induction false} SplitAt(a: string, rest: string)
    requires NoPair(a) && (a == "" || a[|a| - 1] != ':')
    ensures Split(a + "::" + rest) == [a] + Split(rest)
  {
    var s := a + "::" + rest;
    assert PairAt(s, |a|);
    forall i | 0 <= i < |a| ensures !PairAt(s, i) {
      assert !PairAt(a, i);
    }
    assert s[..|a|] == a && s[|a| + 2..] == rest;
  }

  lemma SplitWhole(a: string)
    requires NoPair(a)
    ensures Split(a) == [a]
  {
  }

  /** A piece holds no delimiter, and only the last may end in a colon. */
  ghost predicate Clean(parts: seq<string>, i: nat)
    requires i < |parts|
  {
    NoPair(parts[i]) && (i < |parts| - 1 ==> parts[i] == "" || parts[i][|parts[i]| - 1] != ':')
  }

  lemma {:induction false} PiecesClean(s: string, i: nat)
    requires i < |Split(s)|
    ensures Clean(Split(s), i) && forall c | c in Split(s)[i] :: c in s
    decreases |s|
  {
    var k := FindPair(s);
    if k == |s| {
    } else if i == 0 {
      forall j ensures !PairAt(s[..k], j) {
        if 0 <= j < k { assert !PairAt(s, j); }
      }
      if k > 0 { assert !PairAt(s, k - 1); }
    } else {
      PiecesClean(s[k + 2..], i - 1);
    }
  }

  // ---------------------------------------------------------------------------
  // The word that decides
  // ---------------------------------------------------------------------------

  ghost predicate NoSpaces(isSpace: Spaces, s: string) { forall c | c in s :: !isSpace(c) }

  function Word(isSpace: Spaces, s: string): string { FirstWord(isSpace, StripLeft(isSpace, s)) }

  /** The word of a line that is parsed: the first one, or the one after a list dash. */
  function WordOf(isSpace: Spaces, line: string): string {
    var s := StripLeft(isSpace, line);
    if s == "" || s[0] == '#' then "" else if "- " <= s then Word(isSpace, s[2..]) else FirstWord(isSpace, s)
  }

  lemma {:induction false} WordEnds(isSpace: Spaces, w: string, rest: string)
    requires rest == "" || isSpace(rest[0])
    ensures FirstWord(isSpace, w + rest) == FirstWord(isSpace, w)
  {
    if w == "" {
      assert w + rest == rest;
    } else {
      assert (w + rest)[1..] == w[1..] + rest;
      WordEnds(isSpace, w[1..], rest);
    }
  }

  /** Spaces at the end change no word. */
  lemma WordThenSpaces(isSpace: Spaces, s: string, tail: string)
    requires AllSpaces(isSpace, tail)
    ensures Word(isSpace, s + tail) == Word(isSpace, s)
  {
    StripLeftAppend(isSpace, s, tail);
    StripLeftSpaces(isSpace, tail);
    WordEnds(isSpace, StripLeft(isSpace, s), tail);
  }

  lemma {:induction false} WordHasNoSpaces(isSpace: Spaces, s: string)
    ensures NoSpaces(isSpace, FirstWord(isSpace, s))
    ensures NoSpaces(isSpace, s) ==> FirstWord(isSpace, s) == s
  {
    if s != "" { WordHasNoSpaces(isSpace, s[1..]); }
  }

  /** A line is parsed by its word alone. */
  lemma {:induction false} ParseByWord(isSpace: Spaces, line: string)
    requires ValidSpaces(isSpace)
    ensures Parse(isSpace, line) == ParseToken(WordOf(isSpace, line))
  {
    var x := StripLeft(isSpace, line);
    StripLeftSpaces(isSpace, line);
    var tail := StripRightTail(isSpace, x);
    var s := StripRight(isSpace, x);
    SplitWhole("");
    if s != "" && s[0] != '#' {
      if "- " <= s {
        assert x[2..] == s[2..] + tail;
        WordThenSpaces(isSpace, s[2..], tail);
        var y := StripLeft(isSpace, s[2..]);
        var tail' := StripRightTail(isSpace, y);
        WordEnds(isSpace, StripRight(isSpace, y), tail');
      } else {
        WordEnds(isSpace, s, tail);
        if "- " <= x { DashAlone(isSpace, x, s, tail); }
      }
    }
  }

  lemma {:induction false} DashAlone(isSpace: Spaces, x: string, s: string, tail: string)
    requires ValidSpaces(isSpace) && x == s + tail && AllSpaces(isSpace, tail)
    requires "- " <= x && !("- " <= s) && s != ""
    ensures ParseToken(FirstWord(isSpace, s)) == NotATest && Word(isSpace, x[2..]) == ""
  {
    assert s[0] == x[0] == '-' && |s| == 1;
    assert s == "-";
    assert x[2..] == tail[1..];
    StripLeftSpaces(isSpace, tail[1..]);
    assert FirstWord(isSpace, s) == "-" + FirstWord(isSpace, s[1..]);
    SplitWhole("-");
  }

  // ---------------------------------------------------------------------------
  // What does not change the result
  // ---------------------------------------------------------------------------

  lemma StripsToDash(isSpace: Spaces, x: string)
    requires ValidSpaces(isSpace) && "- " <= x && AllSpaces(isSpace, x[2..])
    ensures StripRight(isSpace, x) == "-"
  {
    var tail := StripRightTail(isSpace, x);
    var r := StripRight(isSpace, x);
    assert forall i | 2 <= i < |x| :: x[i] == x[2..][i - 2];
    assert x[0] == (r + tail)[0];
    assert |r| == 1;
  }

  /** The word after a dash does not change with what follows it. */
  lemma {:induction false} DashedWordEnds(isSpace: Spaces, x: string, rest: string)
    requires ValidSpaces(isSpace) && "- " <= x && StripRight(isSpace, x) != "-"
    requires rest != "" && isSpace(rest[0])
    ensures Word(isSpace, (x + rest)[2..]) == Word(isSpace, x[2..])
  {
    assert (x + rest)[2..] == x[2..] + rest;
    if AllSpaces(isSpace, x[2..]) { StripsToDash(isSpace, x); }
    StripLeftSpaces(isSpace, x[2..]);
    StripLeftAppend(isSpace, x[2..], rest);
    WordEnds(isSpace, StripLeft(isSpace, x[2..]), rest);
  }

  lemma DashOnlyAppears(isSpace: Spaces, x: string, rest: string)
    requires ValidSpaces(isSpace) && x != "" && !("- " <= x) && StripRight(isSpace, x) != "-"
    ensures !("- " <= x + rest)
  {
    if |x| == 1 {
      assert x == [x[0]] && (x + rest)[0] == x[0];
      assert x == "-" ==> StripRight(isSpace, x) == "-";
    } else {
      assert (x + rest)[..2] == x[..2];
    }
  }

  lemma {:induction false} MarkersKeepWord(isSpace: Spaces, x: string, rest: string)
    requires ValidSpaces(isSpace) && x != "" && StripRight(isSpace, x) != "-"
    requires rest != "" && isSpace(rest[0])
    ensures "- " <= x + rest <==> "- " <= x
    ensures "- " <= x ==> Word(isSpace, (x + rest)[2..]) == Word(isSpace, x[2..])
    ensures !("- " <= x) ==> FirstWord(isSpace, x + rest) == FirstWord(isSpace, x)
  {
    if "- " <= x {
      DashedWordEnds(isSpace, x, rest);
    } else {
      DashOnlyAppears(isSpace, x, rest);
      WordEnds(isSpace, x, rest);
    }
  }

  lemma {:induction false} WordOfMarked(isSpace: Spaces, line: string, rest: string)
    requires ValidSpaces(isSpace) && rest != "" && isSpace(rest[0])
    requires Strip(isSpace, line) != "" && Strip(isSpace, line) != "-"
    ensures WordOf(isSpace, line + rest) == WordOf(isSpace, line)
  {
    var x := StripLeft(isSpace, line);
    StripLeftAppend(isSpace, line, rest);
    assert (x + rest)[0] == x[0];
    MarkersKeepWord(isSpace, x, rest);
  }

  /** Whatever follows the first word, after whitespace, is ignored, unless the line was a lone dash. */
  lemma {:induction false} MarkersIgnored(isSpace: Spaces, line: string, space: char, markers: string)
    requires ValidSpaces(isSpace) && isSpace(space)
    requires Strip(isSpace, line) != "" && Strip(isSpace, line) != "-"
    ensures Parse(isSpace, line + ([space] + markers)) == Parse(isSpace, line)
  {
    var rest := [space] + markers;
    WordOfMarked(isSpace, line, rest);
    ParseByWord(isSpace, line);
    ParseByWord(isSpace, line + rest);
  }

  lemma WordAfterDash(isSpace: Spaces, line: string)
    requires ValidSpaces(isSpace)
    ensures WordOf(isSpace, "- " + line) == Word(isSpace, line)
  {
    var s := "- " + line;
    assert s[0] == '-' && s[2..] == line && "- " <= s;
    assert StripLeft(isSpace, s) == s;
  }

  lemma WordWithoutDash(isSpace: Spaces, line: string)
    requires var x := StripLeft(isSpace, line); x == "" || (x[0] != '#' && !("- " <= x))
    ensures WordOf(isSpace, line) == Word(isSpace, line)
  {
  }

  /** A list dash is ignored, unless the line is a comment or has one already. */
  lemma ListPrefixIgnored(isSpace: Spaces, line: string)
    requires ValidSpaces(isSpace)
    requires var x := StripLeft(isSpace, line); x == "" || (x[0] != '#' && !("- " <= x))
    ensures Parse(isSpace, "- " + line) == Parse(isSpace, line)
  {
    ParseByWord(isSpace, line);
    ParseByWord(isSpace, "- " + line);
    WordAfterDash(isSpace, line);
    WordWithoutDash(isSpace, line);
  }

  // ---------------------------------------------------------------------------
  // Printing and parsing back
  // ---------------------------------------------------------------------------

  ghost predicate EndsInPy(path: string) { exists stem :: path == stem + ".py" }

  /** The entries that survive printing and parsing. */
  ghost predicate WellFormed(isSpace: Spaces, e: Entry) {
    && Plain(isSpace, e.path) && EndsInPy(e.path) && !(':' in e.path && '/' in e.path)
    && e.path[0] != '#'
    && (e.className.Some? ==>
          var c := e.className.value; Plain(isSpace, c) && c != "" && c[|c| - 1] != ':')
    && Plain(isSpace, e.func) && e.func != "" && '[' !in e.func
    && (e.param.Some? ==> Plain(isSpace, e.param.value) && e.param.value != "")
  }

  ghost predicate Plain(isSpace: Spaces, s: string) { NoPair(s) && NoSpaces(isSpace, s) }

  lemma PythonExactly(path: string)
    ensures IsPython(path) <==> EndsInPy(path)
  {
    if IsPython(path) { assert path == path[..|path| - 3] + ".py"; }
  }

  function PrintPart(func: string, param: Option<string>): string {
    func + if param.Some? && param.value != "" then "[" + param.value + "]" else ""
  }

  lemma PartHasNoPair(func: string, param: Option<string>)
    requires NoPair(func) && (param.Some? ==> NoPair(param.value))
    ensures NoPair(PrintPart(func, param))
  {
    var s := PrintPart(func, param);
    forall i ensures !PairAt(s, i) {
      if 0 <= i < |func| { assert !PairAt(func, i); }
      if |func| < i < |s| - 1 { assert !PairAt(param.value, i - |func| - 1); }
    }
  }

  /** The brackets that were printed are the ones that are found. */
  lemma {:induction false} PartParses(token: string, path: string, className: Option<string>, func: string,
                                      param: Option<string>)
    requires func != "" && '[' !in func && param != Some("")
    ensures ParseParts(token, path, className, PrintPart(func, param)) == Test(Entry(path, className, func, param))
  {
    var s := PrintPart(func, param);
    var open, close := IndexOf(s, '['), AfterLast(s, ']');
    if param.None? {
      assert s == func;
      assert open == |s|;
      assert s[..open] == func;
    } else {
      assert s[|func|] == '[' && s[|s| - 1] == ']';
      assert s[..open] == func by {
        assert '[' in s[..|func| + 1];
        assert forall i | 0 <= i < |func| :: s[i] == func[i];
      }
      assert close == |s|;
      assert s[open + 1..close - 1] == param.value;
    }
  }

  /** The class as it is printed. */
  function Shown(className: Option<string>): Option<string> {
    if className == Some("") then None else className
  }

  /** How a printed entry splits, if neither its function nor its parameter holds a delimiter. */
  lemma {:induction false} PrintSplits(e: Entry)
    requires NoPair(e.path) && IsPython(e.path) && NoPair(e.func) && (e.param.Some? ==> NoPair(e.param.value))
    ensures Shown(e.className).None? ==> Split(Print(e)) == [e.path, PrintPart(e.func, e.param)]
    ensures Shown(e.className).Some? ==>
              Split(Print(e)) == [e.path] + Split(e.className.value + "::" + PrintPart(e.func, e.param))
  {
    var part := PrintPart(e.func, e.param);
    assert e.path[|e.path| - 1] == e.path[|e.path| - 3..][2];
    if Shown(e.className).None? {
      assert Print(e) == e.path + "::" + part;
      SplitAt(e.path, part);
      PartHasNoPair(e.func, e.param);
      SplitWhole(part);
    } else {
      assert Print(e) == e.path + "::" + (e.className.value + "::" + part);
      SplitAt(e.path, e.className.value + "::" + part);
    }
  }

  /** With a class that keeps its colons apart from the delimiter, it splits in three. */
  lemma {:induction false} PrintSplitsInThree(e: Entry)
    requires NoPair(e.path) && IsPython(e.path) && NoPair(e.func) && (e.param.Some? ==> NoPair(e.param.value))
    requires e.className.Some?
    requires var c := e.className.value; NoPair(c) && c != "" && c[|c| - 1] != ':'
    ensures Split(Print(e)) == [e.path, e.className.value, PrintPart(e.func, e.param)]
  {
    PrintSplits(e);
    SplitAt(e.className.value, PrintPart(e.func, e.param));
    PartHasNoPair(e.func, e.param);
    SplitWhole(PrintPart(e.func, e.param));
  }

  /** A hardware qualifier such as `full:GPU/`, or none. */
  ghost predicate Qualifier(isSpace: Spaces, q: string) {
    q == "" || (q[|q| - 1] == '/' && '/' !in q[..|q| - 1] && ':' in q && q[0] != '#' && Plain(isSpace, q))
  }

  lemma {:induction false} QualifiedPath(isSpace: Spaces, q: string, path: string)
    requires Qualifier(isSpace, q) && NoPair(path) && IsPython(path) && !(':' in path && '/' in path)
    ensures NoPair(q + path) && IsPython(q + path) && Unqualified(q + path) == path
  {
    var s := q + path;
    forall i ensures !PairAt(s, i) {
      if 0 <= i < |q| { assert !PairAt(q, i); }
      if |q| <= i < |s| { assert !PairAt(path, i - |q|); }
    }
    assert s[|s| - 3..] == path[|path| - 3..];
    if q == "" {
      assert s == path;
    } else {
      assert s[|q| - 1] == '/' && s[..|q|] == q;
      assert ':' in s && '/' in s;
      assert IndexOf(s, '/') == |q| - 1 by {
        assert forall i | 0 <= i < |q| - 1 :: s[i] == q[..|q| - 1][i];
        assert '/' in s[..|q|];
      }
      assert s[|q|..] == path;
    }
  }

  lemma QualifierPrints(q: string, e: Entry)
    ensures q + Print(e) == Print(e.(path := q + e.path))
  {
  }

  lemma {:induction false} ParsesFromTwo(token: string, path: string, part: string)
    requires Split(token) == [path, part] && IsPython(Unqualified(path))
    ensures ParseToken(token) == ParseParts(token, Unqualified(path), None, part)
  {
  }

  lemma {:induction false} ParsesFromThree(token: string, path: string, className: string, part: string)
    requires Split(token) == [path, className, part] && IsPython(Unqualified(path))
    ensures ParseToken(token) == ParseParts(token, Unqualified(path), Some(className), part)
  {
  }

  /** A well-formed entry, printed, parses back, with or without a qualifier before it. */
  lemma {:induction false} TokenParses(isSpace: Spaces, q: string, e: Entry)
    requires Qualifier(isSpace, q) && WellFormed(isSpace, e)
    ensures ParseToken(q + Print(e)) == Test(e)
  {
    var e' := e.(path := q + e.path);
    PythonExactly(e.path);
    QualifierPrints(q, e);
    QualifiedPath(isSpace, q, e.path);
    PartParses(Print(e'), e.path, e.className, e.func, e.param);
    if e.className.None? {
      PrintSplits(e');
      ParsesFromTwo(Print(e'), e'.path, PrintPart(e.func, e.param));
    } else {
      PrintSplitsInThree(e');
      ParsesFromThree(Print(e'), e'.path, e.className.value, PrintPart(e.func, e.param));
    }
  }

  /** A text without whitespace that is no comment is its own word. */
  lemma {:induction false} WordOfPlain(isSpace: Spaces, s: string)
    requires ValidSpaces(isSpace) && NoSpaces(isSpace, s)
    ensures WordOf(isSpace, s) == if s != "" && s[0] == '#' then "" else s
  {
    WordHasNoSpaces(isSpace, s);
    assert ' ' !in s;
  }

  lemma PrintHasNoSpaces(isSpace: Spaces, e: Entry)
    requires ValidSpaces(isSpace) && NoSpaces(isSpace, e.path) && NoSpaces(isSpace, e.func)
    requires e.className.Some? ==> NoSpaces(isSpace, e.className.value)
    requires e.param.Some? ==> NoSpaces(isSpace, e.param.value)
    ensures NoSpaces(isSpace, Print(e))
  {
  }

  /** So does the line that holds it. */
  lemma {:induction false} PrintedParses(isSpace: Spaces, q: string, e: Entry)
    requires ValidSpaces(isSpace) && Qualifier(isSpace, q) && WellFormed(isSpace, e)
    ensures Parse(isSpace, q + Print(e)) == Test(e)
  {
    PrintHasNoSpaces(isSpace, e);
    ParsePlain(isSpace, q + Print(e));
    TokenParses(isSpace, q, e);
  }

  lemma {:induction false} QualifiedPair(isSpace: Spaces, q: string, token: string)
    requires Qualifier(isSpace, q)
    ensures FindPair(q + token) == |q| + FindPair(token)
  {
    var s, k := q + token, FindPair(token);
    forall i | 0 <= i < |q| + k ensures !PairAt(s, i) {
      if i < |q| { assert !PairAt(q, i); } else { assert !PairAt(token, i - |q|); }
    }
    if k < |token| { assert PairAt(s, |q| + k); }
  }

  /** A qualifier lengthens the first piece and leaves the others. */
  lemma {:induction false} QualifiedSplit(isSpace: Spaces, q: string, token: string)
    requires Qualifier(isSpace, q)
    ensures Split(q + token) == [q + Split(token)[0]] + Split(token)[1..]
  {
    var s, k := q + token, FindPair(token);
    QualifiedPair(isSpace, q, token);
    if k < |token| {
      assert s[..|q| + k] == q + token[..k] && s[|q| + k + 2..] == token[k + 2..];
      assert Split(token) == [token[..k]] + Split(token[k + 2..]);
    }
  }

  lemma UnqualifiedOnce(isSpace: Spaces, q: string, path: string)
    requires Qualifier(isSpace, q) && q != ""
    ensures Unqualified(q + path) == path
  {
    var s := q + path;
    assert s[|q| - 1] == '/' && s[..|q|] == q;
    assert ':' in s && '/' in s;
    assert IndexOf(s, '/') == |q| - 1 by {
      assert forall i | 0 <= i < |q| - 1 :: s[i] == q[..|q| - 1][i];
      assert '/' in s[..|q|];
    }
    assert s[|q|..] == path;
  }

  /** A qualifier is stripped from any token, once: what follows the slash is the path as it stands. */
  lemma {:induction false} QualifierStripped(isSpace: Spaces, q: string, token: string)
    requires Qualifier(isSpace, q) && q != ""
    ensures ParseToken(q + token) == ParsePieces(q + token, Split(token)[0], Split(token))
  {
    QualifiedSplit(isSpace, q, token);
    UnqualifiedOnce(isSpace, q, Split(token)[0]);
  }

  /** The same verdict; a malformed token is reported as it was written. */
  predicate SameVerdict(a: Parsed, b: Parsed) { a == b || (a.Malformed? && b.Malformed?) }

  /** The token itself only shows in the report of a malformed one. */
  lemma VerdictOfPieces(a: string, b: string, path: string, parts: seq<string>)
    requires parts != []
    ensures SameVerdict(ParsePieces(a, path, parts), ParsePieces(b, path, parts))
  {
  }

  lemma {:induction false} VerdictOfToken(isSpace: Spaces, q: string, token: string)
    requires Qualifier(isSpace, q) && var path := Split(token)[0]; !(':' in path && '/' in path)
    ensures SameVerdict(ParseToken(q + token), ParseToken(token))
  {
    if q == "" {
      assert q + token == token;
    } else {
      QualifierStripped(isSpace, q, token);
      assert ParseToken(token) == ParsePieces(token, Split(token)[0], Split(token));
      VerdictOfPieces(q + token, token, Split(token)[0], Split(token));
    }
  }

  lemma {:induction false} ParsePlain(isSpace: Spaces, token: string)
    requires ValidSpaces(isSpace) && NoSpaces(isSpace, token) && (token != "" ==> token[0] != '#')
    ensures Parse(isSpace, token) == ParseToken(token)
  {
    ParseByWord(isSpace, token);
    WordOfPlain(isSpace, token);
  }

  /** So a qualifier changes the result of no token whose own path is not qualified. */
  lemma {:induction false} QualifierIgnored(isSpace: Spaces, q: string, token: string)
    requires ValidSpaces(isSpace) && Qualifier(isSpace, q) && NoSpaces(isSpace, token)
    requires token != "" ==> token[0] != '#'
    requires var path := Split(token)[0]; !(':' in path && '/' in path)
    ensures SameVerdict(Parse(isSpace, q + token), Parse(isSpace, token))
  {
    ParsePlain(isSpace, q + token);
    ParsePlain(isSpace, token);
    VerdictOfToken(isSpace, q, token);
  }

  // ---------------------------------------------------------------------------
  // What a token means
  // ---------------------------------------------------------------------------

  /** A path with a colon loses everything up to its first slash; any other path stays as it is. */
  lemma UnqualifiedExactly(a: string, b: string, path: string)
    requires '/' !in a
    ensures Unqualified(a + "/" + b) == if ':' in a || ':' in b then b else a + "/" + b
    ensures ':' !in path || '/' !in path ==> Unqualified(path) == path
  {
    var s := a + "/" + b;
    assert s[|a|] == '/' && s[|a| + 1..] == b;
    assert ':' in s <==> ':' in a || ':' in b by {
      if i :| 0 <= i < |a| && a[i] == ':' { assert s[i] == ':'; }
      if i :| 0 <= i < |b| && b[i] == ':' { assert s[|a| + 1 + i] == ':'; }
    }
    assert IndexOf(s, '/') == |a| by {
      assert forall i | 0 <= i < |a| :: s[i] == a[i];
      assert '/' in s[..|a| + 1];
    }
  }

  /** The parameter is what stands between the first opening and the last closing bracket. */
  lemma ParamExactly(f: string, p: string, t: string, part: string)
    requires '[' !in f && ']' !in t
    ensures ParamOf(f + "[" + p + "]" + t) == Some(p)
    ensures ']' !in part ==> ParamOf(part) == None
  {
    var s := f + "[" + p + "]" + t;
    assert s[|f|] == '[' && s[|f| + 1 + |p|] == ']';
    assert IndexOf(s, '[') == |f| by {
      assert forall i | 0 <= i < |f| :: s[i] == f[i];
      assert '[' in s[..|f| + 1];
    }
    assert AfterLast(s, ']') == |f| + 2 + |p| by {
      assert forall i | |f| + 2 + |p| <= i < |s| :: s[i] == t[i - |f| - 2 - |p|];
    }
    assert s[|f| + 1..|f| + 1 + |p|] == p;
  }

  /** The part starts with a function's name. */
  predicate NamesFunction(part: string) { part != "" && part[0] != '[' }

  lemma PartNamesFunction(token: string, path: string, className: Option<string>, part: string)
    ensures ParseParts(token, path, className, part) ==
              if !NamesFunction(part) then Malformed(token)
              else Test(Entry(path, className, part[..IndexOf(part, '[')],
                              if '[' in part then ParamOf(part) else None))
  {
    var open := IndexOf(part, '[');
    if part != "" {
      assert open == 0 <==> part[0] == '[' by { if open > 0 { assert part[0] in part[..open]; } }
    }
    assert part == part[..open] + part[open..];
    assert open == |part| <==> '[' !in part;
  }

  /** A token's class and part, by the pieces after the path. */
  function ClassPiece(parts: seq<string>): Option<string>
    requires parts != []
  {
    if |parts| == 1 then None else Some(parts[0])
  }

  function PartPiece(parts: seq<string>): string
    requires parts != []
  {
    if |parts| == 1 then parts[0] else parts[1]
  }

  lemma {:induction false} TokenByPieces(path: string, rest: string)
    requires NoPair(path) && (path == "" || path[|path| - 1] != ':')
    ensures var token, parts := path + "::" + rest, Split(rest);
            ParseToken(token) ==
              if !IsPython(Unqualified(path)) then NotATest
              else ParseParts(token, Unqualified(path), ClassPiece(parts), PartPiece(parts))
  {
    SplitAt(path, rest);
    var parts := Split(rest);
    assert ([path] + parts)[0] == path && ([path] + parts)[1] == parts[0];
    assert |parts| > 1 ==> ([path] + parts)[2] == parts[1];
  }

  /**
   Exactly which tokens are tests: a path, without its qualifier, that ends in .py, and after it, or
   after one more piece for the class, a part that names a function. Further pieces are ignored.
   */
  lemma {:induction false} TestsExactly(path: string, rest: string)
    requires NoPair(path) && (path == "" || path[|path| - 1] != ':')
    ensures var r, part := ParseToken(path + "::" + rest), PartPiece(Split(rest));
            && (r.Test? <==> EndsInPy(Unqualified(path)) && NamesFunction(part))
            && (r.NotATest? <==> !EndsInPy(Unqualified(path)))
            && (r.Malformed? ==> r.token == path + "::" + rest)
            && (r.Test? ==>
                  r.entry == Entry(Unqualified(path), ClassPiece(Split(rest)), part[..IndexOf(part, '[')],
                                   if '[' in part then ParamOf(part) else None))
  {
    TokenByPieces(path, rest);
    PythonExactly(Unqualified(path));
    PartNamesFunction(path + "::" + rest, Unqualified(path), ClassPiece(Split(rest)), PartPiece(Split(rest)));
  }

  /** And a token without a delimiter is none. */
  lemma NoDelimiterNoTest(token: string)
    requires NoPair(token)
    ensures ParseToken(token) == NotATest
  {
    SplitWhole(token);
  }

  lemma NoPairInside(s: string, i: nat, j: nat)
    requires i <= j <= |s| && NoPair(s)
    ensures NoPair(s[i..j])
  {
    forall k ensures !PairAt(s[i..j], k) {
      assert !PairAt(s, i + k);
    }
  }

  lemma UnqualifiedPlain(isSpace: Spaces, path: string)
    requires Plain(isSpace, path)
    ensures Plain(isSpace, Unqualified(path))
  {
    if ':' in path && '/' in path {
      var i := IndexOf(path, '/');
      NoPairInside(path, i + 1, |path|);
      assert path[i + 1..] == path[i + 1..|path|];
    }
  }

  lemma {:induction false} PiecePlain(isSpace: Spaces, token: string, i: nat)
    requires NoSpaces(isSpace, token) && i < |Split(token)|
    ensures Plain(isSpace, Split(token)[i])
  {
    PiecesClean(token, i);
  }

  lemma {:induction false} PartFields(isSpace: Spaces, part: string)
    requires Plain(isSpace, part)
    ensures Plain(isSpace, part[..IndexOf(part, '[')])
    ensures ParamOf(part).Some? ==> Plain(isSpace, ParamOf(part).value)
  {
    var open, close := IndexOf(part, '['), AfterLast(part, ']');
    NoPairInside(part, 0, open);
    assert part[0..open] == part[..open];
    if close > open + 1 { NoPairInside(part, open + 1, close - 1); }
  }

  /** What a parsed entry is made of. */
  lemma {:induction false} ParsedShape(token: string, e: Entry)
    requires ParseToken(token) == Test(e)
    ensures var parts := Split(token);
            && |parts| >= 2 && e.path == Unqualified(parts[0]) && IsPython(e.path)
            && e.className == (if |parts| == 2 then None else Some(parts[1]))
            && var part := if |parts| == 2 then parts[1] else parts[2];
            && e.func == part[..IndexOf(part, '[')] && e.func != ""
            && e.param == if IndexOf(part, '[') == |part| then None else ParamOf(part)
  {
  }

  /** Every field of a parsed entry is a stretch of the token, between its delimiters. */
  lemma {:induction false} ParsedFields(isSpace: Spaces, token: string, e: Entry)
    requires NoSpaces(isSpace, token) && ParseToken(token) == Test(e)
    ensures Plain(isSpace, e.path) && Plain(isSpace, e.func) && EndsInPy(e.path)
    ensures e.func != "" && '[' !in e.func
    ensures e.className.Some? ==> Plain(isSpace, e.className.value)
    ensures e.param.Some? ==> Plain(isSpace, e.param.value)
  {
    ParsedShape(token, e);
    PythonExactly(e.path);
    PiecePlain(isSpace, token, 0);
    UnqualifiedPlain(isSpace, Split(token)[0]);
    PiecePlain(isSpace, token, 1);
    if |Split(token)| > 2 { PiecePlain(isSpace, token, 2); }
    PartFields(isSpace, if |Split(token)| == 2 then Split(token)[1] else Split(token)[2]);
  }

  /** Printing then parsing gives an entry back if and only if the entry is well-formed. */
  lemma RoundTripExactly(isSpace: Spaces, e: Entry)
    requires ValidSpaces(isSpace)
    ensures Parse(isSpace, Print(e)) == Test(e) <==> WellFormed(isSpace, e)
  {
    if WellFormed(isSpace, e) {
      PrintedParses(isSpace, "", e);
      assert "" + Print(e) == Print(e);
    }
    if Parse(isSpace, Print(e)) == Test(e) {
      SurvivorIsWellFormed(isSpace, e);
    }
  }

  lemma {:induction false} SurvivorIsWellFormed(isSpace: Spaces, e: Entry)
    requires ValidSpaces(isSpace) && Parse(isSpace, Print(e)) == Test(e)
    ensures WellFormed(isSpace, e)
  {
    ParseByWord(isSpace, Print(e));
    var token := WordOf(isSpace, Print(e));
    WordIsPlain(isSpace, Print(e));
    ParsedFields(isSpace, token, e);
    PrintHasNoSpaces(isSpace, e);
    WordOfPlain(isSpace, Print(e));
    SplitWhole("");
    assert token == Print(e);
    PythonExactly(e.path);
    SurvivorPath(e);
    if e.className.Some? { SurvivorClass(e); }
    if e.param == Some("") { SurvivorParam(e); }
  }

  /** What a printed entry that parses back tells of its path, */
  lemma {:induction false} SurvivorPath(e: Entry)
    requires NoPair(e.path) && IsPython(e.path) && NoPair(e.func) && (e.param.Some? ==> NoPair(e.param.value))
    requires ParseToken(Print(e)) == Test(e)
    ensures !(':' in e.path && '/' in e.path)
  {
    PrintSplits(e);
    ParsedShape(Print(e), e);
    assert Unqualified(e.path) == e.path;
  }

  /** of its class, */
  lemma {:induction false} SurvivorClass(e: Entry)
    requires NoPair(e.path) && IsPython(e.path) && NoPair(e.func) && (e.param.Some? ==> NoPair(e.param.value))
    requires ParseToken(Print(e)) == Test(e) && e.className.Some?
    ensures var c := e.className.value; c != "" && c[|c| - 1] != ':'
  {
    PrintSplits(e);
    ParsedShape(Print(e), e);
    var parts := Split(Print(e));
    assert parts[1] == e.className.value && |parts| > 2;
    PiecesClean(Print(e), 1);
    assert Clean(parts, 1);
  }

  /** and of its parameter. */
  lemma {:induction false} SurvivorParam(e: Entry)
    requires NoPair(e.path) && IsPython(e.path) && NoPair(e.func)
    requires '[' !in e.func && e.param == Some("")
    requires e.className.Some? ==> var c := e.className.value; NoPair(c) && c != "" && c[|c| - 1] != ':'
    ensures ParseToken(Print(e)) != Test(e)
  {
    assert PrintPart(e.func, e.param) == e.func;
    assert IndexOf(e.func, '[') == |e.func|;
    if e.className.None? { PrintSplits(e); } else { PrintSplitsInThree(e); }
  }

  lemma WordIsPlain(isSpace: Spaces, s: string)
    ensures NoSpaces(isSpace, WordOf(isSpace, s))
  {
    var x := StripLeft(isSpace, s);
    WordHasNoSpaces(isSpace, x);
    if "- " <= x { WordHasNoSpaces(isSpace, StripLeft(isSpace, x[2..])); }
  }
}
