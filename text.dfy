/**
 * The JavaScript string operations the deck code relies on, over `seq<char>`:
 * `trim`, `toUpperCase`/`toLowerCase` (ASCII letters only), `startsWith`,
 * `includes`, `indexOf`, `split` on a character and on runs of whitespace,
 * `join`, `replace(/\s+/g, '_')`, `parseInt(_, 10)` and string comparison.
 */
module Text {
  import opened Wrappers

  /** The characters that `String.prototype.trim` removes and that `\s` matches. */
  predicate IsSpace(c: char) {
    if c <= ' ' then c == ' ' || '\t' <= c <= '\r'
    else if c < '\U{00A0}' then false
    else
      || c == '\U{00A0}' || c == '\U{1680}' || ('\U{2000}' <= c <= '\U{200A}')
      || c == '\U{2028}' || c == '\U{2029}' || c == '\U{202F}' || c == '\U{205F}'
      || c == '\U{3000}' || c == '\U{FEFF}'
  }

  /** Every character is whitespace (this includes the empty string). */
  predicate Blank(s: string) {
    forall i :: 0 <= i < |s| ==> IsSpace(s[i])
  }

  function TrimStart(s: string): (r: string)
    ensures |r| <= |s| && r == s[|s| - |r|..]
    ensures r == [] || !IsSpace(r[0])
    ensures Blank(s[..|s| - |r|])
    ensures (s == [] || !IsSpace(s[0])) ==> r == s
  {
    if s != [] && IsSpace(s[0]) then
      var r := TrimStart(s[1..]);
      assert s[..|s| - |r|] == [s[0]] + s[1..][..|s| - 1 - |r|];
      r
    else s
  }

  function TrimEnd(s: string): (r: string)
    ensures |r| <= |s| && r == s[..|r|]
    ensures r == [] || !IsSpace(r[|r| - 1])
    ensures Blank(s[|r|..])
    ensures (s == [] || !IsSpace(s[|s| - 1])) ==> r == s
  {
    if s != [] && IsSpace(s[|s| - 1]) then
      var r := TrimEnd(s[..|s| - 1]);
      assert s[|r|..] == s[..|s| - 1][|r|..] + [s[|s| - 1]];
      r
    else s
  }

  /** `s.trim()`: the string without leading and trailing whitespace. */
  function Trim(s: string): (r: string)
    ensures |r| <= |s|
    ensures r == [] || (!IsSpace(r[0]) && !IsSpace(r[|r| - 1]))
    ensures forall c :: c in r ==> c in s
  {
    TrimEnd(TrimStart(s))
  }

  /** `r` is the slice of `s` at `i`, with only whitespace before and after it. */
  predicate PaddedSlice(s: string, i: nat, r: string) {
    i + |r| <= |s| && r == s[i..i + |r|] && Blank(s[..i]) && Blank(s[i + |r|..])
  }

  /**
   * `Trim` removes exactly the leading and the trailing whitespace: what it
   * returns is the slice of `s` between a blank prefix and a blank suffix.
   */
  lemma TrimExact(s: string)
    ensures PaddedSlice(s, |s| - |TrimStart(s)|, Trim(s))
  {
    TrimBetween(s, TrimStart(s), Trim(s));
  }

  /** A trimmed prefix `r` of a trimmed suffix `t` of `s` is a slice of `s` between two blank parts. */
  lemma TrimBetween(s: string, t: string, r: string)
    requires |t| <= |s| && t == s[|s| - |t|..] && Blank(s[..|s| - |t|])
    requires |r| <= |t| && r == t[..|r|] && Blank(t[|r|..])
    ensures PaddedSlice(s, |s| - |t|, r)
  {
    var i := |s| - |t|;
    SliceOfSuffix(s, i, |r|);
    SuffixOfSuffix(s, i, |r|);
  }

  lemma SliceOfSuffix(s: string, i: nat, n: nat)
    requires i + n <= |s|
    ensures s[i..i + n] == s[i..][..n]
  {
  }

  lemma SuffixOfSuffix(s: string, i: nat, n: nat)
    requires i + n <= |s|
    ensures s[i + n..] == s[i..][n..]
  {
  }

  lemma TrimEmptyIffBlank(s: string)
    ensures Trim(s) == [] <==> Blank(s)
  {
    var t := TrimStart(s);
    if Trim(s) == [] {
      assert s == s[..|s| - |t|] + t;
      assert Blank(t[|TrimEnd(t)|..]);
    } else {
      assert !IsSpace(Trim(s)[0]) && Trim(s)[0] in s;
    }
  }

  lemma TrimIdempotent(s: string)
    ensures Trim(Trim(s)) == Trim(s)
  {
  }

  /** A string whose ends are not whitespace is its own trim. */
  lemma TrimOfUnpadded(s: string)
    requires s == [] || (!IsSpace(s[0]) && !IsSpace(s[|s| - 1]))
    ensures Trim(s) == s
  {
  }

  lemma {:induction false} TrimStartBlankPrefix(b: string, x: string)
    requires Blank(b)
    ensures TrimStart(b + x) == TrimStart(x)
    decreases |b|
  {
    if b != [] {
      assert (b + x)[1..] == b[1..] + x;
      TrimStartBlankPrefix(b[1..], x);
    } else {
      assert b + x == x;
    }
  }

  lemma {:induction false} TrimEndBlankSuffix(x: string, b: string)
    requires Blank(b)
    ensures TrimEnd(x + b) == TrimEnd(x)
    decreases |b|
  {
    if b != [] {
      assert (x + b)[..|x + b| - 1] == x + b[..|b| - 1];
      TrimEndBlankSuffix(x, b[..|b| - 1]);
    } else {
      assert x + b == x;
    }
  }

  /** Trailing whitespace after an unpadded string is trimmed away. */
  lemma TrimOfPaddedEnd(a: string, b: string)
    requires a != [] && !IsSpace(a[0]) && !IsSpace(a[|a| - 1])
    requires Blank(b)
    ensures Trim(a + b) == a
  {
    assert (a + b)[0] == a[0];
    TrimEndBlankSuffix(a, b);
  }

  /** ASCII-only `toUpperCase` of one character. */
  function UpperChar(c: char): char {
    if 'a' <= c <= 'z' then (c as int - 32) as char else c
  }

  /** ASCII-only `toLowerCase` of one character. */
  function LowerChar(c: char): char {
    if 'A' <= c <= 'Z' then (c as int + 32) as char else c
  }

  function Upper(s: string): (r: string)
    ensures |r| == |s|
    ensures forall i :: 0 <= i < |s| ==> r[i] == UpperChar(s[i])
  {
    seq(|s|, i requires 0 <= i < |s| => UpperChar(s[i]))
  }

  function Lower(s: string): (r: string)
    ensures |r| == |s|
    ensures forall i :: 0 <= i < |s| ==> r[i] == LowerChar(s[i])
  {
    seq(|s|, i requires 0 <= i < |s| => LowerChar(s[i]))
  }

  /** `s.startsWith(prefix)`. */
  predicate StartsWith(s: string, prefix: string) {
    |prefix| <= |s| && s[..|prefix|] == prefix
  }

  /** `s.includes(sub)`: `sub` occurs somewhere in `s`. */
  predicate Contains(s: string, sub: string)
    decreases |s|
  {
    StartsWith(s, sub) || (s != [] && Contains(s[1..], sub))
  }

  /** `sub` occurs in `s` starting at position `i`. */
  predicate OccursAt(s: string, sub: string, i: int) {
    0 <= i <= |s| - |sub| && s[i..i + |sub|] == sub
  }

  /** `Contains` agrees with its reference meaning: `sub` occurs at some position of `s`. */
  lemma {:induction false} ContainsMeaning(s: string, sub: string)
    ensures Contains(s, sub) <==> exists i :: OccursAt(s, sub, i)
    decreases |s|
  {
    if StartsWith(s, sub) {
      assert OccursAt(s, sub, 0);
    } else if s != [] {
      ContainsMeaning(s[1..], sub);
      if Contains(s[1..], sub) {
        var i :| OccursAt(s[1..], sub, i);
        assert s[i + 1..i + 1 + |sub|] == s[1..][i..i + |sub|];
        assert OccursAt(s, sub, i + 1);
      }
      if exists i :: OccursAt(s, sub, i) {
        var i :| OccursAt(s, sub, i);
        assert i != 0;
        assert s[1..][i - 1..i - 1 + |sub|] == s[i..i + |sub|];
        assert OccursAt(s[1..], sub, i - 1);
      }
    }
  }

  lemma ContainsEmpty(s: string)
    ensures Contains(s, [])
  {
  }

  /** `s.indexOf(c)`: the first position of `c`, if any. */
  function IndexOf(s: string, c: char): (r: Option<nat>)
    ensures r.None? <==> c !in s
    ensures r.Some? ==> r.value < |s| && s[r.value] == c && c !in s[..r.value]
  {
    if s == [] then None
    else if s[0] == c then Some(0)
    else match IndexOf(s[1..], c)
      case None => None
      case Some(i) => Some(i + 1)
  }

  /** A position holding `c` with no `c` before it is what `indexOf` finds. */
  lemma {:induction false} IndexOfAt(s: string, c: char, p: nat)
    requires p < |s| && s[p] == c && c !in s[..p]
    ensures IndexOf(s, c) == Some(p)
    decreases p
  {
    if p > 0 {
      assert s[0] == s[..p][0];
      assert s[1..][..p - 1] == s[..p][1..];
      IndexOfAt(s[1..], c, p - 1);
    }
  }

  /** `s.slice(0, s.indexOf(c))` when `c` occurs, else `s`. */
  function CutAt(s: string, c: char): (r: string)
    ensures c !in r
    ensures |r| <= |s| && r == s[..|r|]
    ensures c !in s ==> r == s
    ensures c in s ==> |r| < |s| && s[|r|] == c
  {
    match IndexOf(s, c)
    case Some(i) => s[..i]
    case None => s
  }

  /** `parts.join(sep)`. */
  function JoinWith(parts: seq<string>, sep: string): string {
    if parts == [] then []
    else if |parts| == 1 then parts[0]
    else parts[0] + sep + JoinWith(parts[1..], sep)
  }

  /** Two parts joined: the separator between them. */
  lemma JoinTwo(x: string, y: string, sep: string)
    ensures JoinWith([x, y], sep) == x + sep + y
  {
    JoinCons(x, [y], sep);
    assert [x, y] == [x] + [y];
  }

  /** Three parts joined by a space. */
  lemma JoinThree(q: string, w: string, note: string)
    ensures JoinWith([q] + [w] + [note], " ") == q + " " + w + " " + note
  {
    JoinCons(q, [w, note], " ");
    JoinCons(w, [note], " ");
    assert [q] + [w] + [note] == [q] + [w, note];
    assert [w, note] == [w] + [note];
  }

  lemma JoinCons(w: string, rest: seq<string>, sep: string)
    requires rest != []
    ensures JoinWith([w] + rest, sep) == w + sep + JoinWith(rest, sep)
  {
    assert ([w] + rest)[1..] == rest;
  }

  lemma {:induction false} JoinAppend(a: seq<string>, b: seq<string>, sep: string)
    requires a != [] && b != []
    ensures JoinWith(a + b, sep) == JoinWith(a, sep) + sep + JoinWith(b, sep)
    decreases |a|
  {
    if |a| == 1 {
      assert a + b == [a[0]] + b;
      JoinCons(a[0], b, sep);
    } else {
      assert a + b == [a[0]] + (a[1..] + b);
      JoinCons(a[0], a[1..] + b, sep);
      JoinAppend(a[1..], b, sep);
      JoinCons(a[0], a[1..], sep);
    }
  }

  /** A character in neither the parts nor the separator is not in the joined string. */
  lemma {:induction false} JoinWithout(ws: seq<string>, sep: string, c: char)
    requires c !in sep
    requires forall i :: 0 <= i < |ws| ==> c !in ws[i]
    ensures c !in JoinWith(ws, sep)
    decreases |ws|
  {
    if |ws| > 1 {
      JoinWithout(ws[1..], sep, c);
    }
  }

  /** Joined non-empty parts start with the first part's first character and end with the last part's last. */
  lemma {:induction false} JoinEnds(ws: seq<string>, sep: string)
    requires ws != [] && forall i :: 0 <= i < |ws| ==> ws[i] != []
    ensures JoinWith(ws, sep) != []
    ensures JoinWith(ws, sep)[0] == ws[0][0]
    ensures JoinWith(ws, sep)[|JoinWith(ws, sep)| - 1] == ws[|ws| - 1][|ws[|ws| - 1]| - 1]
    decreases |ws|
  {
    if |ws| > 1 {
      JoinEnds(ws[1..], sep);
    }
  }

  /** `s.split(c)`: the maximal pieces between occurrences of `c`. */
  function SplitOn(s: string, c: char): (parts: seq<string>)
    ensures |parts| >= 1
    ensures forall p :: p in parts ==> c !in p
    ensures JoinWith(parts, [c]) == s
  {
    if s == [] then [[]]
    else
      var rest := SplitOn(s[1..], c);
      if s[0] == c then
        assert s == [c] + JoinWith(rest, [c]);
        [[]] + rest
      else
        var parts := [[s[0]] + rest[0]] + rest[1..];
        assert parts[1..] == rest[1..];
        assert |rest| > 1 ==> JoinWith(rest, [c]) == rest[0] + [c] + JoinWith(rest[1..], [c]);
        parts
  }

  /** Splitting at the first separator: the piece before it, then the pieces of the rest. */
  lemma {:induction false} SplitOnFirst(pre: string, c: char, post: string)
    requires c !in pre
    ensures SplitOn(pre + [c] + post, c) == [pre] + SplitOn(post, c)
    decreases |pre|
  {
    var s := pre + [c] + post;
    if pre == [] {
      assert s[1..] == post;
    } else {
      assert s[1..] == pre[1..] + [c] + post;
      SplitOnFirst(pre[1..], c, post);
      assert [s[0]] + pre[1..] == pre;
    }
  }

  lemma SplitOnNone(s: string, c: char)
    requires c !in s
    ensures SplitOn(s, c) == [s]
  {
  }

  /** Splitting separator-free pieces joined by the separator gives back the pieces. */
  lemma {:induction false} SplitOnJoin(ls: seq<string>, c: char)
    requires ls != [] && forall i :: 0 <= i < |ls| ==> c !in ls[i]
    ensures SplitOn(JoinWith(ls, [c]), c) == ls
    decreases |ls|
  {
    if |ls| == 1 {
      SplitOnNone(ls[0], c);
    } else {
      var rest := ls[1..];
      JoinCons(ls[0], rest, [c]);
      SplitOnFirst(ls[0], c, JoinWith(rest, [c]));
      SplitOnJoin(rest, c);
      assert ls == [ls[0]] + rest;
    }
  }

  /** The first piece of `v + rest` is `v` when `v` has no separator and `rest` is empty or starts with one. */
  lemma SplitOnFirstPieceIs(v: string, c: char, rest: string)
    requires c !in v
    requires rest == [] || rest[0] == c
    ensures SplitOn(v + rest, c)[0] == v
  {
    if rest == [] {
      assert v + rest == v;
      SplitOnNone(v, c);
    } else {
      assert v + rest == v + [c] + rest[1..];
      SplitOnFirst(v, c, rest[1..]);
    }
  }

  /** The first piece of a string that starts with a non-separator starts with that character. */
  lemma SplitOnFirstPiece(s: string, c: char)
    requires s != [] && s[0] != c
    ensures SplitOn(s, c)[0] != [] && SplitOn(s, c)[0][0] == s[0]
  {
  }

  /** No character of `w` is whitespace. */
  predicate NoSpace(w: string) {
    forall i :: 0 <= i < |w| ==> !IsSpace(w[i])
  }

  /** What `split(/\s+/)` yields as one token: a non-empty run without whitespace. */
  predicate IsWord(w: string) {
    w != [] && NoSpace(w)
  }

  /** The longest prefix of `s` without whitespace. */
  function WordPrefix(s: string): (r: string)
    ensures |r| <= |s| && r == s[..|r|]
    ensures NoSpace(r)
    ensures |r| == |s| || IsSpace(s[|r|])
  {
    if s != [] && !IsSpace(s[0]) then [s[0]] + WordPrefix(s[1..]) else []
  }

  /**
   * The maximal runs of non-whitespace characters. On a trimmed, non-empty
   * string this is what `s.split(/\s+/)` returns.
   */
  function Words(s: string): (ws: seq<string>)
    ensures forall w :: w in ws ==> w != []
    decreases |s|
  {
    var t := TrimStart(s);
    if t == [] then []
    else
      var w := WordPrefix(t);
      [w] + Words(t[|w|..])
  }

  lemma {:induction false} WordPrefixOf(w: string, x: string)
    requires NoSpace(w) && (x == [] || IsSpace(x[0]))
    ensures WordPrefix(w + x) == w
    decreases |w|
  {
    if w == [] {
      assert w + x == x;
    } else {
      assert (w + x)[0] == w[0];
      assert (w + x)[1..] == w[1..] + x;
      WordPrefixOf(w[1..], x);
      assert [w[0]] + w[1..] == w;
    }
  }

  lemma WordsSkipBlank(b: string, x: string)
    requires Blank(b)
    ensures Words(b + x) == Words(x)
  {
    TrimStartBlankPrefix(b, x);
  }

  /** A word on its own is one token. */
  lemma WordsSingle(w: string)
    requires IsWord(w)
    ensures Words(w) == [w]
  {
    WordPrefixOf(w, []);
    assert w + [] == w && w[|w|..] == [];
  }

  /** A word, a whitespace run, then text that starts with a non-space: the word is the first token. */
  lemma WordsCons(w: string, sep: string, r: string)
    requires IsWord(w) && sep != [] && Blank(sep) && r != [] && !IsSpace(r[0])
    ensures Words(w + sep + r) == [w] + Words(r)
  {
    var s := w + sep + r;
    assert s == w + (sep + r) && s[0] == w[0];
    WordPrefixOf(w, sep + r);
    assert s[|w|..] == sep + r;
    WordsSkipBlank(sep, r);
  }

  /**
   * Tokenising words joined by any non-empty run of whitespace gives back
   * the words: `split(/\s+/)` and `join` are inverse on them.
   */
  lemma {:induction false} WordsOfJoin(ws: seq<string>, sep: string)
    requires sep != [] && Blank(sep)
    requires forall i :: 0 <= i < |ws| ==> IsWord(ws[i])
    ensures Words(JoinWith(ws, sep)) == ws
    decreases |ws|
  {
    if |ws| == 1 {
      WordsSingle(ws[0]);
    } else if |ws| > 1 {
      var w, rest := ws[0], ws[1..];
      var j := JoinWith(rest, sep);
      assert JoinWith(ws, sep) == w + sep + j;
      assert Words(w + sep + j) == [w] + rest by {
        JoinEnds(rest, sep);
        WordsOfJoin(rest, sep);
        WordsCons(w, sep, j);
      }
      assert ws == [w] + rest;
    }
  }

  /** `s.replace(/\s+/g, '_')`: every maximal run of whitespace becomes one `_`. */
  function ReplaceSpaceRuns(s: string): (r: string)
    ensures NoSpace(r)
    ensures r == [] <==> s == []
    ensures NoSpace(s) ==> r == s
    decreases |s|
  {
    if s == [] then []
    else if IsSpace(s[0]) then "_" + ReplaceSpaceRuns(TrimStart(s))
    else [s[0]] + ReplaceSpaceRuns(s[1..])
  }

  lemma {:induction false} ReplaceSpaceRunsWordFirst(w: string, x: string)
    requires NoSpace(w)
    ensures ReplaceSpaceRuns(w + x) == w + ReplaceSpaceRuns(x)
    decreases |w|
  {
    if w == [] {
      assert w + x == x;
    } else {
      var s := w + x;
      assert s[1..] == w[1..] + x;
      assert ReplaceSpaceRuns(s) == [w[0]] + ReplaceSpaceRuns(w[1..] + x) by {
        assert s[0] == w[0];
        ReplaceSpaceRunsKeepsHead(s);
      }
      ReplaceSpaceRunsWordFirst(w[1..], x);
      HeadThenRest(w, ReplaceSpaceRuns(x));
    }
  }

  lemma HeadThenRest(a: string, b: string)
    requires a != []
    ensures [a[0]] + (a[1..] + b) == a + b
  {
    assert a == [a[0]] + a[1..];
  }

  lemma ReplaceSpaceRunsKeepsHead(s: string)
    requires s != [] && !IsSpace(s[0])
    ensures ReplaceSpaceRuns(s) == [s[0]] + ReplaceSpaceRuns(s[1..])
  {
  }

  lemma ReplaceSpaceRunsRun(b: string, x: string)
    requires b != [] && Blank(b) && (x == [] || !IsSpace(x[0]))
    ensures ReplaceSpaceRuns(b + x) == "_" + ReplaceSpaceRuns(x)
  {
    assert (b + x)[0] == b[0];
    TrimStartBlankPrefix(b, x);
  }

  lemma ReplaceSpaceRunsCons(w: string, sep: string, r: string)
    requires NoSpace(w) && sep != [] && Blank(sep) && r != [] && !IsSpace(r[0])
    ensures ReplaceSpaceRuns(w + sep + r) == w + "_" + ReplaceSpaceRuns(r)
  {
    assert w + sep + r == w + (sep + r);
    assert ReplaceSpaceRuns(w + (sep + r)) == w + ReplaceSpaceRuns(sep + r) by {
      ReplaceSpaceRunsWordFirst(w, sep + r);
    }
    assert ReplaceSpaceRuns(sep + r) == "_" + ReplaceSpaceRuns(r) by {
      ReplaceSpaceRunsRun(sep, r);
    }
    assert w + ("_" + ReplaceSpaceRuns(r)) == w + "_" + ReplaceSpaceRuns(r);
  }

  /** Words separated by whitespace runs come out separated by single underscores. */
  lemma {:induction false} ReplaceSpaceRunsOfJoin(ws: seq<string>, sep: string)
    requires sep != [] && Blank(sep)
    requires forall i :: 0 <= i < |ws| ==> IsWord(ws[i])
    ensures ReplaceSpaceRuns(JoinWith(ws, sep)) == JoinWith(ws, "_")
    decreases |ws|
  {
    if |ws| == 1 {
      assert NoSpace(ws[0]);
    } else if |ws| > 1 {
      var rest := ws[1..];
      JoinCons(ws[0], rest, sep);
      JoinCons(ws[0], rest, "_");
      JoinEnds(rest, sep);
      ReplaceSpaceRunsOfJoin(rest, sep);
      ReplaceSpaceRunsCons(ws[0], sep, JoinWith(rest, sep));
    }
  }

  /** Plain lexicographic order on strings, the model of `localeCompare(...) <= 0`. */
  predicate LexLe(a: string, b: string) {
    a == [] || (b != [] && (a[0] < b[0] || (a[0] == b[0] && LexLe(a[1..], b[1..]))))
  }

  lemma {:induction false} LexLeTotal(a: string, b: string)
    ensures LexLe(a, b) || LexLe(b, a)
  {
    if a != [] && b != [] && a[0] == b[0] {
      LexLeTotal(a[1..], b[1..]);
    }
  }

  lemma {:induction false} LexLeTransitive(a: string, b: string, c: string)
    requires LexLe(a, b) && LexLe(b, c)
    ensures LexLe(a, c)
  {
    if a != [] && a[0] == b[0] && b[0] == c[0] {
      LexLeTransitive(a[1..], b[1..], c[1..]);
    }
  }

  lemma {:induction false} LexLeAntisymmetric(a: string, b: string)
    requires LexLe(a, b) && LexLe(b, a)
    ensures a == b
  {
    if a != [] && b != [] {
      LexLeAntisymmetric(a[1..], b[1..]);
      assert a == [a[0]] + a[1..] && b == [b[0]] + b[1..];
    }
  }

  // Decimal numerals

  predicate IsDigit(c: char) {
    '0' <= c <= '9'
  }

  function DigitValue(c: char): nat {
    if IsDigit(c) then c as int - '0' as int else 0
  }

  function DigitChar(d: nat): (c: char)
    requires d < 10
    ensures IsDigit(c) && DigitValue(c) == d
  {
    ('0' as int + d) as char
  }

  /** The length of the longest all-digit prefix of `s`. */
  function DigitPrefix(s: string): (n: nat)
    ensures n <= |s|
    ensures n == |s| || !IsDigit(s[n])
  {
    if s != [] && IsDigit(s[0]) then 1 + DigitPrefix(s[1..]) else 0
  }

  /** The value of a string of decimal digits. */
  function DigitsValue(ds: string): nat {
    if ds == [] then 0 else DigitsValue(ds[..|ds| - 1]) * 10 + DigitValue(ds[|ds| - 1])
  }

  /**
   * `parseInt(s, 10)`: leading whitespace, an optional sign and the longest
   * digit prefix; whatever follows is ignored. `None` stands for `NaN`.
   */
  function ParseIntPrefix(s: string): (r: Option<int>)
    ensures var t := TrimStart(s);
      var digits := if t != [] && (t[0] == '-' || t[0] == '+') then t[1..] else t;
      r.Some? <==> digits != [] && IsDigit(digits[0])
  {
    var t := TrimStart(s);
    if t != [] && t[0] == '-' then Negated(ReadDigits(t[1..]))
    else if t != [] && t[0] == '+' then ReadDigits(t[1..])
    else ReadDigits(t)
  }

  /** The value of the digits that `b` starts with, if it starts with any. */
  function ReadDigits(b: string): Option<int> {
    var n := DigitPrefix(b);
    if n == 0 then None else Some(DigitsValue(b[..n]))
  }

  function Negated(x: Option<int>): Option<int> {
    match x
    case None => None
    case Some(v) => Some(-v)
  }

  /** The decimal numeral of `n`, as a template literal prints it. */
  function NatToString(n: nat): (s: string)
    ensures s != [] && forall i :: 0 <= i < |s| ==> IsDigit(s[i])
  {
    if n < 10 then [DigitChar(n)] else NatToString(n / 10) + [DigitChar(n % 10)]
  }

  lemma {:induction false} NatToStringValue(n: nat)
    ensures DigitsValue(NatToString(n)) == n
  {
    var s := NatToString(n);
    if n >= 10 {
      NatToStringValue(n / 10);
      assert s[..|s| - 1] == NatToString(n / 10);
    } else {
      assert s[..|s| - 1] == [];
    }
  }

  lemma {:induction false} DigitPrefixOfNumeral(digits: string, rest: string)
    requires forall i :: 0 <= i < |digits| ==> IsDigit(digits[i])
    requires rest == [] || !IsDigit(rest[0])
    ensures DigitPrefix(digits + rest) == |digits|
  {
    if digits != [] {
      assert (digits + rest)[1..] == digits[1..] + rest;
      DigitPrefixOfNumeral(digits[1..], rest);
    }
  }

  /** `parseInt` reads back the numeral of `n` and ignores trailing junk. */
  lemma ParseIntReadsNumeral(n: nat, rest: string)
    requires rest == [] || !IsDigit(rest[0])
    ensures ParseIntPrefix(NatToString(n) + rest) == Some(n)
  {
    NatToStringValue(n);
    ParseIntReadsDigits(NatToString(n), rest);
  }

  /** The same after a minus sign: negative quantities are read as such. */
  lemma ParseIntReadsNegativeNumeral(n: nat, rest: string, t: string)
    requires rest == [] || !IsDigit(rest[0])
    requires t != [] && t[0] == '-' && t[1..] == NatToString(n) + rest
    ensures ParseIntPrefix(t) == Some(-(n as int))
  {
    ReadDigitsOfNat(n, rest);
    ParseIntOfMinus(t);
  }

  lemma ReadDigitsOfNat(n: nat, rest: string)
    requires rest == [] || !IsDigit(rest[0])
    ensures ReadDigits(NatToString(n) + rest) == Some(n)
  {
    NatToStringValue(n);
    ReadDigitsOfNumeral(NatToString(n), rest);
  }

  lemma ReadDigitsOfNumeral(s: string, rest: string)
    requires s != [] && forall i :: 0 <= i < |s| ==> IsDigit(s[i])
    requires rest == [] || !IsDigit(rest[0])
    ensures ReadDigits(s + rest) == Some(DigitsValue(s))
  {
    DigitPrefixOfNumeral(s, rest);
    assert (s + rest)[..|s|] == s;
  }

  lemma ParseIntOfDigitStart(t: string)
    requires t != [] && IsDigit(t[0])
    ensures ParseIntPrefix(t) == ReadDigits(t)
  {
  }

  lemma ParseIntOfMinus(t: string)
    requires t != [] && t[0] == '-'
    ensures ParseIntPrefix(t) == Negated(ReadDigits(t[1..]))
  {
  }

  lemma ParseIntReadsDigits(s: string, rest: string)
    requires s != [] && forall i :: 0 <= i < |s| ==> IsDigit(s[i])
    requires rest == [] || !IsDigit(rest[0])
    ensures ParseIntPrefix(s + rest) == Some(DigitsValue(s))
  {
    ReadDigitsOfNumeral(s, rest);
    assert (s + rest)[0] == s[0];
    ParseIntOfDigitStart(s + rest);
  }
}
