/**
 The key-casing plugins: camelify turns snake_case keys into camelCase, snakeify
 turns camelCase keys into snake_case, on every object of a JSON tree.

 snakeify is two regular-expression passes followed by lower-casing. Both passes
 are modelled as the leftmost, non-overlapping, greedy replacement the regular
 expressions stand for. Upper and lower case are those of ASCII letters.
 */
module KeyCasing {

  predicate Upper(c: char) { 'A' <= c <= 'Z' }
  predicate Lower(c: char) { 'a' <= c <= 'z' }
  predicate Digit(c: char) { '0' <= c <= '9' }
  predicate Plain(c: char) { Lower(c) || Digit(c) }

  function ToUpper(c: char): char { if Lower(c) then (c as int - 32) as char else c }
  function ToLower(c: char): char { if Upper(c) then (c as int + 32) as char else c }

  /** Case by ASCII codes: 65 to 90 are the capitals, 97 to 122 their small counterparts, 48 to 57 the digits. */
  lemma CaseMeaning(c: char)
    ensures Upper(c) <==> 65 <= c as int <= 90
    ensures Lower(c) <==> 97 <= c as int <= 122
    ensures Digit(c) <==> 48 <= c as int <= 57
    ensures ToLower(c) as int == if 65 <= c as int <= 90 then c as int + 32 else c as int
    ensures ToUpper(c) as int == if 97 <= c as int <= 122 then c as int - 32 else c as int
  {
  }

  function LowerAll(s: string): string {
    if s == "" then "" else [ToLower(s[0])] + LowerAll(s[1..])
  }

  // -------------------------------------------------- Snake to camel

  /** The pieces between underscores; always at least one. */
  function Split(s: string): (parts: seq<string>)
    ensures parts != []
  {
    if s == "" then [""]
    else
      var rest := Split(s[1..]);
      if s[0] == '_' then [""] + rest
      else [[s[0]] + rest[0]] + rest[1..]
  }

  function Capital(s: string): string {
    if s == "" then "" else [ToUpper(s[0])] + s[1..]
  }

  function Concat(parts: seq<string>): string {
    if parts == [] then "" else parts[0] + Concat(parts[1..])
  }

  function Capitals(parts: seq<string>): seq<string> {
    seq(|parts|, i requires 0 <= i < |parts| => Capital(parts[i]))
  }

  /** The first piece as it is, the others capitalised, glued together. */
  function CamelOf(parts: seq<string>): string
    requires parts != []
  {
    parts[0] + Concat(Capitals(parts[1..]))
  }

  /** One pass: underscores vanish, and what follows one is capitalised. */
  function CamelFrom(s: string, capital: bool): string {
    if s == "" then ""
    else if s[0] == '_' then CamelFrom(s[1..], true)
    else [if capital then ToUpper(s[0]) else s[0]] + CamelFrom(s[1..], false)
  }

  lemma {:induction false} CapitalsCons(piece: string, rest: seq<string>)
    ensures Concat(Capitals([piece] + rest)) == Capital(piece) + Concat(Capitals(rest))
    ensures CamelOf([piece] + rest) == piece + Concat(Capitals(rest))
  {
    assert ([piece] + rest)[1..] == rest;
    assert Capitals([piece] + rest)[1..] == Capitals(rest);
  }

  lemma {:induction false} Assoc(a: string, b: string, c: string)
    ensures (a + b) + c == a + (b + c)
  {
  }

  /** One more character in front of the first piece. */
  lemma {:induction false} CamelCons(c: char, first: string, rest: seq<string>)
    ensures CamelOf([[c] + first] + rest) == [c] + CamelOf([first] + rest)
    ensures Concat(Capitals([[c] + first] + rest)) == [ToUpper(c)] + CamelOf([first] + rest)
  {
    var tail := Concat(Capitals(rest));
    CapitalsCons([c] + first, rest);
    CapitalsCons(first, rest);
    CapitalOf(c, first);
    Assoc([c], first, tail);
    Assoc([ToUpper(c)], first, tail);
  }

  lemma {:induction false} CapitalOf(c: char, first: string)
    ensures Capital([c] + first) == [ToUpper(c)] + first
  {
    assert ([c] + first)[1..] == first;
  }

  /** Splitting, capitalising and gluing is that pass, for every string. */
  lemma {:induction false} CamelIsOnePass(s: string)
    ensures CamelOf(Split(s)) == CamelFrom(s, false)
    ensures Concat(Capitals(Split(s))) == CamelFrom(s, true)
  {
    if s == "" {
      CapitalsCons("", []);
    } else {
      var rest := Split(s[1..]);
      CamelIsOnePass(s[1..]);
      if s[0] == '_' {
        assert ([""] + rest)[1..] == rest;
        CapitalsCons("", rest);
      } else {
        CamelCons(s[0], rest[0], rest[1..]);
        assert [rest[0]] + rest[1..] == rest;
      }
    }
  }

  lemma CapitalisedPieces(split: seq<string>, parts: seq<string>)
    requires split != [] && |parts| == |split| && parts[0] == split[0]
    requires forall j | 1 <= j < |parts| :: parts[j] == Capital(split[j])
    ensures Concat(parts) == CamelOf(split)
  {
    assert parts[1..] == Capitals(split[1..]);
  }

  /** Every piece but the first, capitalised in place. */
  method CapitaliseRest(parts: array<string>)
    requires parts.Length >= 1
    modifies parts
    ensures parts[0] == old(parts[0])
    ensures forall j | 1 <= j < parts.Length :: parts[j] == Capital(old(parts[j]))
  {
    var i := 1;
    while i < parts.Length
      invariant 1 <= i <= parts.Length
      invariant parts[0] == old(parts[0])
      invariant forall j | 1 <= j < i :: parts[j] == Capital(old(parts[j]))
      invariant forall j | i <= j < parts.Length :: parts[j] == old(parts[j])
    {
      if |parts[i]| > 0 {
        parts[i] := [ToUpper(parts[i][0])] + parts[i][1..];
      }
      i := i + 1;
    }
  }

  method SnakeToCamel(s: string) returns (r: string)
    ensures r == CamelOf(Split(s))
  {
    var split := Split(s);
    var parts := new string[|split|](i requires 0 <= i < |split| => split[i]);
    CapitaliseRest(parts);
    CapitalisedPieces(split, parts[..]);
    r := Concat(parts[..]);
  }

  // -------------------------------------------------- Camel to snake

  /** The length of the run of lower-case letters s starts with. */
  function LowerRun(s: string): (n: nat)
    ensures n <= |s| && forall i | 0 <= i < n :: Lower(s[i])
    ensures n < |s| ==> !Lower(s[n])
  {
    if s == "" || !Lower(s[0]) then 0 else 1 + LowerRun(s[1..])
  }

  /** Does (.)([A-Z][a-z]+) match at the start of s? The dot takes anything but a newline. */
  predicate WordStart(s: string) {
    |s| >= 3 && s[0] != '\n' && Upper(s[1]) && Lower(s[2])
  }

  /** First pass: (.)([A-Z][a-z]+) becomes $1_$2. */
  function Pass1(s: string): string
    decreases |s|
  {
    if s == "" then ""
    else if WordStart(s) then
      var n := LowerRun(s[2..]);
      [s[0]] + (['_'] + ([s[1]] + (s[2..2 + n] + Pass1(s[2 + n..]))))
    else [s[0]] + Pass1(s[1..])
  }

  /** Second pass: ([a-z0-9])([A-Z]) becomes $1_$2. */
  function Pass2(s: string): string {
    if |s| < 2 then s
    else if Plain(s[0]) && Upper(s[1]) then [s[0], '_', s[1]] + Pass2(s[2..])
    else [s[0]] + Pass2(s[1..])
  }

  function CamelToSnake(s: string): string {
    LowerAll(Pass2(Pass1(s)))
  }

  // ------------------------------------ The two passes are one simple pass

  /** An underscore belongs between `before` and the start of s. */
  predicate Break(before: char, s: string) {
    && s != "" && Upper(s[0])
    && (Plain(before) || (|s| >= 2 && Lower(s[1]) && before != '\n'))
  }

  /** s, which follows `before`, with an underscore at every break. */
  function Broken(before: char, s: string): string
    decreases |s|
  {
    if s == "" then ""
    else (if Break(before, s) then ['_', s[0]] else [s[0]]) + Broken(s[0], s[1..])
  }

  /** The second pass seen from the character before s. */
  function Pass2After(before: char, s: string): string
    decreases |s|
  {
    if s == "" then ""
    else (if Plain(before) && Upper(s[0]) then ['_', s[0]] else [s[0]]) + Pass2After(s[0], s[1..])
  }

  lemma {:induction false} Pass2IsLocal(s: string)
    requires s != ""
    ensures Pass2(s) == [s[0]] + Pass2After(s[0], s[1..])
    decreases |s|
  {
    if |s| >= 2 {
      if Plain(s[0]) && Upper(s[1]) {
        if |s| > 2 {
          Pass2IsLocal(s[2..]);
          assert s[1..][1..] == s[2..];
        }
      } else {
        Pass2IsLocal(s[1..]);
      }
    }
  }

  lemma Pass2AfterCons(before: char, c: char, t: string)
    ensures Pass2After(before, [c] + t) ==
            (if Plain(before) && Upper(c) then ['_', c] else [c]) + Pass2After(c, t)
  {
    assert ([c] + t)[1..] == t;
  }

  /** No break before a character that is not upper case. */
  lemma {:induction false} RunUnbroken(before: char, s: string, n: nat)
    requires 1 <= n <= |s| && forall i | 0 <= i < n :: !Upper(s[i])
    ensures Broken(before, s) == s[..n] + Broken(s[n - 1], s[n..])
    decreases n
  {
    if n > 1 {
      RunUnbroken(s[0], s[1..], n - 1);
      assert s[1..][..n - 1] == s[1..n] && s[1..][n - 1..] == s[n..];
    }
  }

  lemma {:induction false} RunPasses(before: char, run: string, t: string)
    requires run != "" && forall i | 0 <= i < |run| :: Lower(run[i])
    ensures Pass2After(before, run + t) == run + Pass2After(run[|run| - 1], t)
    decreases |run|
  {
    assert run + t == [run[0]] + (run[1..] + t);
    Pass2AfterCons(before, run[0], run[1..] + t);
    if |run| > 1 {
      RunPasses(run[0], run[1..], t);
    } else {
      assert run[1..] + t == t;
    }
  }

  lemma BrokenCons(before: char, c: char, t: string)
    ensures Broken(before, [c] + t) ==
            (if Break(before, [c] + t) then "_" + [c] else "" + [c]) + Broken(c, t)
  {
    assert ([c] + t)[1..] == t;
  }

  /** One match of the first pass, seen through the second: c, then an underscore and a capitalised run. */
  lemma MatchPasses(before: char, c: char, d: char, run: string, rest: string, p: string)
    requires c != '\n' && Upper(d) && run != "" && forall i | 0 <= i < |run| :: Lower(run[i])
    requires Plain(before) || !Upper(c)  || !Break(before, [c] + ([d] + (run + rest)))
    requires Pass2After(run[|run| - 1], p) == Broken(run[|run| - 1], rest)
    ensures Pass2After(before, [c] + (['_'] + ([d] + (run + p)))) == Broken(before, [c] + ([d] + (run + rest)))
  {
    RunPasses(d, run, p);
    RunUnbroken(d, run + rest, |run|);
    assert (run + rest)[..|run|] == run && (run + rest)[|run|..] == rest;
    var tail := run + Broken(run[|run| - 1], rest);
    assert Pass2After(d, run + p) == tail == Broken(d, run + rest);
    Pass2AfterCons('_', d, run + p);
    Pass2AfterCons(c, '_', [d] + (run + p));
    Pass2AfterCons(before, c, ['_'] + ([d] + (run + p)));
    BrokenCons(c, d, run + rest);
    assert Break(c, [d] + (run + rest));
    BrokenCons(before, c, [d] + (run + rest));
    assert ['_'] + ([d] + tail) == ("_" + [d]) + tail;
  }

  lemma Pass1Match(s: string, run: string, rest: string)
    requires WordStart(s)
    requires run == s[2..2 + LowerRun(s[2..])] && rest == s[2 + LowerRun(s[2..])..]
    ensures s == [s[0]] + ([s[1]] + (run + rest))
    ensures Pass1(s) == [s[0]] + (['_'] + ([s[1]] + (run + Pass1(rest))))
  {
    assert s[2..] == run + rest;
  }

  /**
   After a character the first pass has already dealt with, the two passes insert
   exactly the breaks.
   */
  lemma {:induction false} TwoPassesAreOne(before: char, s: string)
    requires Plain(before) || !Break(before, s)
    ensures Pass2After(before, Pass1(s)) == Broken(before, s)
    decreases |s|
  {
    if s == "" {
    } else if WordStart(s) {
      var n := LowerRun(s[2..]);
      var run, rest := s[2..2 + n], s[2 + n..];
      Pass1Match(s, run, rest);
      TwoPassesAreOne(run[n - 1], rest);
      MatchPasses(before, s[0], s[1], run, rest, Pass1(rest));
    } else {
      TwoPassesAreOne(s[0], s[1..]);
      Pass2AfterCons(before, s[0], Pass1(s[1..]));
    }
  }

  /** camelToSnake in one pass, for every string; nothing is broken off after a newline or at the start. */
  lemma CamelToSnakeMeaning(s: string)
    ensures CamelToSnake(s) == LowerAll(Broken('\n', s))
  {
    var p := Pass1(s);
    TwoPassesAreOne('\n', s);
    if s != "" {
      Pass2IsLocal(p);
      assert p == [p[0]] + p[1..];
      Pass2AfterCons('\n', p[0], p[1..]);
    }
  }

  // ------------------------------------------------ Splitting and joining

  ghost predicate NoUpper(s: string) {
    forall i | 0 <= i < |s| :: !Upper(s[i])
  }

  /** What lies between two underscores of a key without upper case. */
  ghost predicate Piece(w: string) {
    NoUpper(w) && '_' !in w
  }

  ghost predicate Pieces(ws: seq<string>) {
    forall w | w in ws :: Piece(w)
  }

  /** Every piece with an underscore in front. */
  function Tail(ws: seq<string>): string {
    if ws == [] then "" else "_" + ws[0] + Tail(ws[1..])
  }

  /** The snake_case key made of these pieces. */
  function Snake(ws: seq<string>): string
    requires ws != []
  {
    ws[0] + Tail(ws[1..])
  }

  lemma SplitHead(c: char, s: string)
    requires c != '_'
    ensures Split([c] + s) == [[c] + Split(s)[0]] + Split(s)[1..]
  {
    assert ([c] + s)[1..] == s;
  }

  lemma {:induction false} SplitPiece(w: string, s: string)
    requires '_' !in w
    ensures Split(w + s) == [w + Split(s)[0]] + Split(s)[1..]
    decreases |w|
  {
    if w == "" {
      assert w + s == s && w + Split(s)[0] == Split(s)[0];
    } else {
      var rest := w[1..];
      SplitPiece(rest, s);
      SplitHead(w[0], rest + s);
      assert w + s == [w[0]] + (rest + s);
      assert [w[0]] + (rest + Split(s)[0]) == w + Split(s)[0];
    }
  }

  lemma {:induction false} SplitSnake(ws: seq<string>)
    requires ws != [] && Pieces(ws)
    ensures Split(Snake(ws)) == ws
    decreases |ws|
  {
    assert ws[0] in ws;
    SplitPiece(ws[0], Tail(ws[1..]));
    if |ws| == 1 {
      assert Split("") == [""];
      assert ws[0] + "" == ws[0];
    } else {
      var rest := ws[1..];
      forall w | w in rest ensures Piece(w) {
        assert w in ws;
      }
      SplitSnake(rest);
      assert Tail(rest) == "_" + Snake(rest);
      assert Tail(rest)[1..] == Snake(rest);
      assert Split(Tail(rest)) == [""] + rest;
      assert ws[0] + "" == ws[0];
    }
  }

  /** Splitting loses nothing. */
  lemma {:induction false} SnakeSplit(s: string)
    ensures Snake(Split(s)) == s
  {
    if s != "" {
      var rest := Split(s[1..]);
      SnakeSplit(s[1..]);
      assert s == [s[0]] + s[1..];
      if s[0] == '_' {
        assert ([""] + rest)[1..] == rest;
      } else {
        var ps := [[s[0]] + rest[0]] + rest[1..];
        assert ps[1..] == rest[1..];
        assert ([s[0]] + rest[0]) + Tail(rest[1..]) == [s[0]] + (rest[0] + Tail(rest[1..]));
      }
    }
  }

  lemma {:induction false} SplitPieces(s: string)
    requires NoUpper(s)
    ensures Pieces(Split(s))
  {
    if s != "" {
      var rest := Split(s[1..]);
      SplitPieces(s[1..]);
      assert rest[0] in rest;
      forall p | p in Split(s) ensures Piece(p) {
        if p !in rest && s[0] != '_' {
          assert p == [s[0]] + rest[0];
        }
      }
    }
  }

  // ------------------------------------------------------- Lower case

  lemma {:induction false} LowerAllConcat(a: string, b: string)
    ensures LowerAll(a + b) == LowerAll(a) + LowerAll(b)
    decreases |a|
  {
    if a == "" {
      assert a + b == b;
    } else {
      assert (a + b)[1..] == a[1..] + b;
      LowerAllConcat(a[1..], b);
    }
  }

  lemma {:induction false} LowerAllFixed(s: string)
    requires NoUpper(s)
    ensures LowerAll(s) == s
  {
    if s != "" {
      LowerAllFixed(s[1..]);
    }
  }

  lemma {:induction false} LowerAllLow(s: string)
    ensures NoUpper(LowerAll(s))
  {
    if s != "" {
      LowerAllLow(s[1..]);
    }
  }

  // ----------------------------------------- Camel keys and back to snake

  /** A piece that camelify can mark by a capital. */
  predicate Starts(w: string) {
    w != "" && Lower(w[0])
  }

  /** snakeify breaks before the capital of w, which follows `before`. */
  predicate Marked(before: char, w: string) {
    Plain(before) || (|w| >= 2 && Lower(w[1]) && before != '\n')
  }

  /** The last character camelify leaves of a later piece; for want of one, what came before. */
  function Last(before: char, w: string): char {
    if w == "" then before else Capital(w)[|w| - 1]
  }

  /** What snakeify makes of the capitalised pieces after `before`. */
  function Rebuilt(before: char, ws: seq<string>): string
    decreases |ws|
  {
    if ws == [] then ""
    else (if Starts(ws[0]) && Marked(before, ws[0]) then "_" else "") + ws[0] + Rebuilt(Last(before, ws[0]), ws[1..])
  }

  /** Lower-case pieces pass unbroken. */
  lemma PieceUnbroken(before: char, w: string, t: string)
    requires NoUpper(w)
    ensures Broken(before, w + t) == w + Broken(if w == "" then before else w[|w| - 1], t)
  {
    if w == "" {
      assert w + t == t;
    } else {
      RunUnbroken(before, w + t, |w|);
      assert (w + t)[..|w|] == w && (w + t)[|w|..] == t;
    }
  }

  lemma BreakBeforePiece(before: char, c: char, w: string, t: string)
    requires Upper(c) && NoUpper(w) && (t == "" || !Lower(t[0]))
    ensures Break(before, [c] + (w + t)) <==> Plain(before) || (w != "" && Lower(w[0]) && before != '\n')
  {
    var s := [c] + (w + t);
    if w == "" && t != "" {
      assert s[1] == t[0];
    }
  }

  lemma Regroup(mark: string, c: char, a: string, b: string)
    ensures (mark + [c]) + (a + b) == mark + ([c] + a) + b
  {
  }

  /** A capital c, the rest w of its piece, and what follows. */
  lemma CapitalBroken(before: char, c: char, w: string, t: string)
    requires Upper(c) && NoUpper(w) && (t == "" || !Lower(t[0]))
    ensures var mark := if Plain(before) || (w != "" && Lower(w[0]) && before != '\n') then "_" else "";
            Broken(before, [c] + (w + t)) == mark + ([c] + w) + Broken(if w == "" then c else w[|w| - 1], t)
  {
    BrokenCons(before, c, w + t);
    BreakBeforePiece(before, c, w, t);
    PieceUnbroken(c, w, t);
    var mark := if Plain(before) || (w != "" && Lower(w[0]) && before != '\n') then "_" else "";
    Regroup(mark, c, w, Broken(if w == "" then c else w[|w| - 1], t));
  }

  lemma LowerPieces(mark: string, piece: string, rest: string)
    requires mark in {"_", ""}
    ensures LowerAll(mark + piece + rest) == mark + LowerAll(piece) + LowerAll(rest)
  {
    LowerAllConcat(mark + piece, rest);
    LowerAllConcat(mark, piece);
    assert LowerAll("_") == "_" && LowerAll("") == "";
  }

  lemma CaseAndBack(c: char)
    requires !Upper(c)
    ensures ToLower(ToUpper(c)) == c && (!Lower(c) ==> ToUpper(c) == c)
  {
  }

  lemma CapitalParts(w: string)
    requires w != ""
    ensures Capital(w) == [ToUpper(w[0])] + w[1..] && Capital(w)[1..] == w[1..] && w == [w[0]] + w[1..]
  {
  }

  lemma {:induction false} CapitalLowered(w: string)
    requires w != "" && NoUpper(w)
    ensures LowerAll(Capital(w)) == w && (!Lower(w[0]) ==> Capital(w) == w)
  {
    CapitalParts(w);
    CaseAndBack(w[0]);
    LowerAllFixed(w[1..]);
    assert LowerAll(Capital(w)) == [ToLower(Capital(w)[0])] + LowerAll(Capital(w)[1..]);
  }

  /** One piece with a capital, broken off. */
  lemma {:induction false} StartBroken(before: char, w: string, t: string)
    requires NoUpper(w) && Starts(w) && (t == "" || !Lower(t[0]))
    ensures Broken(before, Capital(w) + t) ==
            (if Marked(before, w) then "_" else "") + Capital(w) + Broken(Last(before, w), t)
  {
    var c, v := ToUpper(w[0]), w[1..];
    CapitalParts(w);
    assert Capital(w) + t == [c] + (v + t);
    assert Last(before, w) == if v == "" then c else v[|v| - 1];
    CapitalBroken(before, c, v, t);
  }

  /** One piece with a capital, broken off and lowered again. */
  lemma {:induction false} StartRebuilt(before: char, w: string, t: string)
    requires NoUpper(w) && Starts(w) && (t == "" || !Lower(t[0]))
    ensures LowerAll(Broken(before, Capital(w) + t)) ==
            (if Marked(before, w) then "_" else "") + w + LowerAll(Broken(Last(before, w), t))
  {
    StartBroken(before, w, t);
    CapitalLowered(w);
    LowerPieces(if Marked(before, w) then "_" else "", Capital(w), Broken(Last(before, w), t));
  }

  /** One piece, capitalised where it can be. */
  lemma PieceRebuilt(before: char, w: string, t: string)
    requires NoUpper(w) && (t == "" || !Lower(t[0]))
    ensures LowerAll(Broken(before, Capital(w) + t)) ==
            (if Starts(w) && Marked(before, w) then "_" else "") + w + LowerAll(Broken(Last(before, w), t))
  {
    if Starts(w) {
      StartRebuilt(before, w, t);
    } else {
      if w != "" {
        CapitalLowered(w);
      }
      PieceUnbroken(before, w, t);
      LowerAllConcat(w, Broken(Last(before, w), t));
      LowerAllFixed(w);
      assert "" + w == w;
    }
  }

  lemma {:induction false} ConcatCapitals(ws: seq<string>)
    requires Pieces(ws)
    ensures var t := Concat(Capitals(ws)); t == "" || !Lower(t[0])
    ensures ws != [] ==> Concat(Capitals(ws)) == Capital(ws[0]) + Concat(Capitals(ws[1..]))
  {
    if ws != [] {
      assert ws[0] in ws && Capitals(ws)[0] == Capital(ws[0]);
      assert Capitals(ws)[1..] == Capitals(ws[1..]);
      forall w | w in ws[1..] ensures Piece(w) {
        assert w in ws;
      }
      ConcatCapitals(ws[1..]);
    }
  }

  lemma {:induction false} PiecesRebuilt(before: char, ws: seq<string>)
    requires Pieces(ws)
    ensures LowerAll(Broken(before, Concat(Capitals(ws)))) == Rebuilt(before, ws)
    decreases |ws|
  {
    if ws != [] {
      var w, rest := ws[0], ws[1..];
      assert w in ws;
      forall v | v in rest ensures Piece(v) {
        assert v in ws;
      }
      ConcatCapitals(ws);
      ConcatCapitals(rest);
      PiecesRebuilt(Last(before, w), rest);
      PieceRebuilt(before, w, Concat(Capitals(rest)));
    }
  }

  /** The last character of the first piece, which stays as it is. */
  function FirstEnd(w: string): char {
    if w == "" then '\n' else w[|w| - 1]
  }

  /** snakeify after camelify, on the pieces of a key. */
  lemma CamelThenSnake(ws: seq<string>)
    requires ws != [] && Pieces(ws)
    ensures CamelToSnake(CamelOf(ws)) == ws[0] + Rebuilt(FirstEnd(ws[0]), ws[1..])
  {
    var w, rest := ws[0], ws[1..];
    var t := Concat(Capitals(rest));
    assert w in ws;
    forall v | v in rest ensures Piece(v) {
      assert v in ws;
    }
    CamelToSnakeMeaning(w + t);
    PieceUnbroken('\n', w, t);
    LowerAllConcat(w, Broken(FirstEnd(w), t));
    LowerAllFixed(w);
    PiecesRebuilt(FirstEnd(w), rest);
  }

  // ------------------------------------------------ Which keys come back

  /** The underscores all come back. */
  ghost predicate AllMarked(before: char, ws: seq<string>)
    decreases |ws|
  {
    ws != [] ==> Starts(ws[0]) && Marked(before, ws[0]) && AllMarked(Last(before, ws[0]), ws[1..])
  }

  lemma {:induction false} RebuiltExactly(before: char, ws: seq<string>)
    ensures |Rebuilt(before, ws)| <= |Tail(ws)|
    ensures |Rebuilt(before, ws)| == |Tail(ws)| <==> AllMarked(before, ws)
    ensures AllMarked(before, ws) ==> Rebuilt(before, ws) == Tail(ws)
    decreases |ws|
  {
    if ws != [] {
      RebuiltExactly(Last(before, ws[0]), ws[1..]);
    }
  }

  /** The last character camelify leaves before piece i. */
  function Before(ws: seq<string>, i: int): char
    requires 1 <= i <= |ws|
  {
    if i == 1 then FirstEnd(ws[0]) else Last('\n', ws[i - 1])
  }

  /** The underscore before piece i comes back: the piece gets a capital and snakeify breaks there. */
  predicate Joint(ws: seq<string>, i: int) {
    1 <= i < |ws| ==> Starts(ws[i]) && Marked(Before(ws, i), ws[i])
  }

  /**
   A key that survives both plugins: no upper case, and at every underscore the piece
   after it starts with a lower-case letter and is told apart from what is before it.
   */
  ghost predicate Restorable(s: string) {
    NoUpper(s) && JointFrom(Split(s), 1)
  }

  ghost predicate JointFrom(ws: seq<string>, n: int) {
    forall i | n <= i :: Joint(ws, i)
  }

  lemma {:induction false} MarkedUnfolds(ws: seq<string>, n: int)
    requires 1 <= n < |ws|
    ensures AllMarked(Before(ws, n), ws[n..]) <==>
            Starts(ws[n]) && Marked(Before(ws, n), ws[n]) && AllMarked(Before(ws, n + 1), ws[n + 1..])
  {
    assert ws[n..][0] == ws[n] && ws[n..][1..] == ws[n + 1..];
    assert Starts(ws[n]) ==> Last(Before(ws, n), ws[n]) == Before(ws, n + 1);
  }

  lemma {:induction false} MarkedFrom(ws: seq<string>, n: int)
    requires 1 <= n <= |ws|
    ensures AllMarked(Before(ws, n), ws[n..]) <==> JointFrom(ws, n)
    decreases |ws| - n
  {
    if n < |ws| {
      MarkedUnfolds(ws, n);
      MarkedFrom(ws, n + 1);
      assert JointFrom(ws, n) <==> Joint(ws, n) && JointFrom(ws, n + 1);
    }
  }

  lemma LowerKeyBack(s: string)
    requires NoUpper(s)
    ensures var back := CamelToSnake(CamelOf(Split(s)));
            && (back == s <==> JointFrom(Split(s), 1))
            && |back| <= |s| && (|back| == |s| ==> back == s)
  {
    var ws := Split(s);
    var before, rest := FirstEnd(ws[0]), ws[1..];
    SplitPieces(s);
    SnakeSplit(s);
    CamelThenSnake(ws);
    RebuiltExactly(before, rest);
    MarkedFrom(ws, 1);
  }

  /** snakeify undoes camelify on a key exactly when the key is restorable, for every string. */
  lemma KeyRoundTripExactly(s: string)
    ensures CamelToSnake(CamelOf(Split(s))) == s <==> Restorable(s)
  {
    LowerAllLow(Pass2(Pass1(CamelOf(Split(s)))));
    if NoUpper(s) {
      LowerKeyBack(s);
    }
  }

  /** Through both plugins a key without upper case never gets longer, and changes only by getting shorter. */
  lemma KeyNeverGrows(s: string)
    ensures var back := CamelToSnake(CamelOf(Split(s)));
            NoUpper(back) && (NoUpper(s) ==> |back| <= |s| && (|back| == |s| ==> back == s))
  {
    LowerAllLow(Pass2(Pass1(CamelOf(Split(s)))));
    if NoUpper(s) {
      LowerKeyBack(s);
    }
  }

  /** A leading underscore is lost. */
  lemma LeadingUnderscore(w: string)
    ensures !Restorable("_" + w)
    ensures CamelToSnake(CamelOf(Split("_id"))) == "id"
  {
    var s := "_" + w;
    assert s[1..] == w && Split(s) == [""] + Split(w);
    assert !Joint(Split(s), 1);
    UnderscoreId();
  }

  lemma {:induction false} UnderscoreId()
    ensures CamelToSnake(CamelOf(Split("_id"))) == "id"
  {
    var ws := ["", "id"];
    assert Pieces(ws);
    assert ws[1..] == ["id"] && Tail([]) == "" && Tail(["id"]) == "_id" && Snake(ws) == "_id";
    SplitSnake(ws);
    CamelThenSnake(ws);
    assert Rebuilt('\n', ["id"]) == "id";
  }

  // --------------------------------------------------- Keys of snake words

  predicate Word(w: string) {
    w != "" && Lower(w[0]) && forall i | 0 <= i < |w| :: Plain(w[i])
  }

  ghost predicate Words(ws: seq<string>) {
    forall w | w in ws :: Word(w)
  }

  /** No word strictly between the first and the last is a single letter, unless a letter comes second in the next. */
  ghost predicate Reversible(ws: seq<string>) {
    forall i | 1 <= i < |ws| - 1 :: |ws[i]| == 1 ==> |ws[i + 1]| >= 2 && Lower(ws[i + 1][1])
  }

  lemma {:induction false} SnakeIsLower(ws: seq<string>)
    requires Words(ws)
    ensures NoUpper(Tail(ws)) && (ws != [] ==> NoUpper(Snake(ws)))
  {
    if ws != [] {
      assert ws[0] in ws;
      forall w | w in ws[1..] ensures Word(w) {
        assert w in ws;
      }
      SnakeIsLower(ws[1..]);
    }
  }

  lemma WordJoint(ws: seq<string>, i: int)
    requires ws != [] && Words(ws) && 1 <= i < |ws|
    ensures Joint(ws, i) <==> i == 1 || |ws[i - 1]| >= 2 || (|ws[i]| >= 2 && Lower(ws[i][1]))
  {
    assert ws[i] in ws && ws[i - 1] in ws;
  }

  /** On a key of snake words, the words between the first and the last decide. */
  lemma KeyRoundTrip(ws: seq<string>)
    requires ws != [] && Words(ws)
    ensures CamelToSnake(CamelOf(Split(Snake(ws)))) == Snake(ws) <==> Reversible(ws)
  {
    SplitSnake(ws);
    SnakeIsLower(ws);
    KeyRoundTripExactly(Snake(ws));
    forall i | 1 <= i < |ws| ensures Joint(ws, i) <==> i == 1 || |ws[i - 1]| >= 2 || (|ws[i]| >= 2 && Lower(ws[i][1])) {
      WordJoint(ws, i);
    }
    if Reversible(ws) {
      forall i | 1 <= i ensures Joint(ws, i) {
        if 2 <= i < |ws| {
          assert ws[i - 1] in ws && |ws[i - 1]| >= 1;
          assert |ws[i - 1]| == 1 ==> |ws[i - 1 + 1]| >= 2;
        }
      }
    }
    if JointFrom(ws, 1) {
      forall i | 1 <= i < |ws| - 1 && |ws[i]| == 1 ensures |ws[i + 1]| >= 2 && Lower(ws[i + 1][1]) {
        assert Joint(ws, i + 1);
      }
    }
  }
}
