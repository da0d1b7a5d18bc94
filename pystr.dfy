/**
 * The Python `str` methods the scraper relies on: `lower`, `strip`, `split()`,
 * `" ".join`, `'\n'.join`, `''.join`, `replace` and `title`. `split(sep)` is
 * modelled only to state what the lines of a `'\n'.join` are. Whitespace is
 * the full set that Python's `str.isspace` accepts; letter case is modelled
 * for ASCII letters only.
 */
module PyStr {

  /** The characters Python's `str.isspace` accepts, in code-point order. */
  const Whitespace: string :=
    "\U{0009}\U{000A}\U{000B}\U{000C}\U{000D}\U{001C}\U{001D}\U{001E}\U{001F}\U{0020}"
    + "\U{0085}\U{00A0}\U{1680}"
    + "\U{2000}\U{2001}\U{2002}\U{2003}\U{2004}\U{2005}\U{2006}\U{2007}\U{2008}\U{2009}\U{200A}"
    + "\U{2028}\U{2029}\U{202F}\U{205F}\U{3000}"

  /** `c` is one of `codes[i..]`, looked up one entry at a time. */
  predicate OccursFrom(c: char, codes: string, i: nat)
    decreases |codes| - i
  {
    i < |codes| && (codes[i] == c || OccursFrom(c, codes, i + 1))
  }

  /** Python's `str.isspace` on one character: the characters `split()` and `strip()` treat as whitespace. */
  predicate IsSpace(c: char) {
    OccursFrom(c, Whitespace, 0)
  }

  lemma {:induction false} OccursFromIn(c: char, codes: string, i: nat)
    requires i <= |codes|
    ensures OccursFrom(c, codes, i) <==> c in codes[i..]
    decreases |codes| - i
  {
    if i < |codes| {
      OccursFromIn(c, codes, i + 1);
      assert codes[i..] == [codes[i]] + codes[i + 1..];
    }
  }

  /** `IsSpace` is membership in `Whitespace`. */
  lemma {:induction false} SpaceIsWhitespace(c: char)
    ensures IsSpace(c) <==> c in Whitespace
  {
    OccursFromIn(c, Whitespace, 0);
    assert Whitespace[0..] == Whitespace;
  }

  /** The blank and the newline are whitespace; no letter is. */
  lemma {:induction false} SpaceAndNewline()
    ensures IsSpace(' ') && IsSpace('\n')
  {
    SpaceIsWhitespace(' ');
    SpaceIsWhitespace('\n');
    assert Whitespace[9] == ' ' && Whitespace[1] == '\n';
  }

  lemma {:induction false} LetterNotSpace(c: char)
    requires IsLetter(c)
    ensures !IsSpace(c)
  {
    SpaceIsWhitespace(c);
    assert forall k :: 0 <= k < |Whitespace| ==> !IsLetter(Whitespace[k]);
  }

  predicate IsUpper(c: char) { 'A' <= c <= 'Z' }

  predicate IsLower(c: char) { 'a' <= c <= 'z' }

  /** A cased character in the sense of `str.title` (ASCII letters in this model). */
  predicate IsLetter(c: char) { IsUpper(c) || IsLower(c) }

  predicate IsLowerStr(s: string) {
    forall i :: 0 <= i < |s| ==> !IsUpper(s[i])
  }

  predicate HasNoSpace(s: string) {
    forall i :: 0 <= i < |s| ==> !IsSpace(s[i])
  }

  /** Neither the first nor the last character is whitespace: what `strip()` leaves. */
  predicate NoEdgeSpace(s: string) {
    s == [] || (!IsSpace(s[0]) && !IsSpace(s[|s| - 1]))
  }

  // ---------------------------------------------------------------- case

  function LowerChar(c: char): (d: char)
    ensures !IsUpper(d)
    ensures IsLetter(d) == IsLetter(c)
    ensures IsUpper(c) ==> d as int == c as int + 32
    ensures !IsUpper(c) ==> d == c
  {
    if IsUpper(c) then (c as int + 32) as char else c
  }

  function UpperChar(c: char): (d: char)
    ensures !IsLower(d)
    ensures IsLetter(d) == IsLetter(c)
    ensures IsLower(c) ==> d as int == c as int - 32
    ensures !IsLower(c) ==> d == c
  {
    if IsLower(c) then (c as int - 32) as char else c
  }

  /** `s.lower()` */
  function Lower(s: string): (r: string)
    ensures |r| == |s| && IsLowerStr(r)
    ensures forall i :: 0 <= i < |s| ==> IsLetter(r[i]) == IsLetter(s[i])
    ensures forall i {:trigger r[i]} :: 0 <= i < |s| && IsUpper(s[i]) ==> r[i] as int == s[i] as int + 32
    ensures forall i {:trigger r[i]} :: 0 <= i < |s| && !IsUpper(s[i]) ==> r[i] == s[i]
  {
    seq(|s|, i requires 0 <= i < |s| => LowerChar(s[i]))
  }

  /** What `str.title` makes of `c`: a letter after a letter is lower-cased, any other letter upper-cased, a non-letter kept. */
  function TitleChar(c: char, afterCased: bool): char {
    if !IsLetter(c) then c else if afterCased then LowerChar(c) else UpperChar(c)
  }

  /** `str.title` from a position whose preceding character is cased (`afterCased`) or not. */
  function TitleFrom(s: string, afterCased: bool): (r: string)
    ensures |r| == |s|
  {
    if s == [] then [] else [TitleChar(s[0], afterCased)] + TitleFrom(s[1..], IsLetter(s[0]))
  }

  /** Character `i` of `TitleFrom(s, b)` depends on `s[i]` and on whether the character before it (`b` at the start) is a letter. */
  lemma {:induction false} TitleFromAt(s: string, b: bool)
    ensures forall i {:trigger TitleFrom(s, b)[i]} :: 0 <= i < |s| ==>
      TitleFrom(s, b)[i] == TitleChar(s[i], if i == 0 then b else IsLetter(s[i - 1]))
  {
    if s != [] {
      var t := TitleFrom(s, b);
      var u := TitleFrom(s[1..], IsLetter(s[0]));
      TitleFromAt(s[1..], IsLetter(s[0]));
      assert t == [TitleChar(s[0], b)] + u;
      forall i | 1 <= i < |s| ensures t[i] == TitleChar(s[i], IsLetter(s[i - 1])) {
        assert t[i] == u[i - 1] && s[1..][i - 1] == s[i];
        if i > 1 {
          assert s[1..][i - 2] == s[i - 1];
        }
      }
    }
  }

  /** `s.title()`: each run of letters starts upper-case and continues lower-case; other characters are kept. */
  function Title(s: string): (r: string)
    ensures |r| == |s|
    ensures forall i {:trigger r[i]} :: 0 <= i < |s| ==> r[i] == TitleChar(s[i], i > 0 && IsLetter(s[i - 1]))
  {
    TitleFromAt(s, false);
    TitleFrom(s, false)
  }

  lemma {:induction false} TitleFromIdempotent(s: string, b: bool)
    ensures TitleFrom(TitleFrom(s, b), b) == TitleFrom(s, b)
  {
    if s != [] {
      var t := TitleFrom(s, b);
      TitleFromIdempotent(s[1..], IsLetter(s[0]));
      assert t[1..] == TitleFrom(s[1..], IsLetter(s[0]));
      assert IsLetter(t[0]) == IsLetter(s[0]);
    }
  }

  lemma {:induction false} LowerCons(s: string)
    requires s != []
    ensures Lower(s) == [LowerChar(s[0])] + Lower(s[1..])
  {
  }

  lemma {:induction false} TitleFromLower(s: string, b: bool)
    ensures Lower(TitleFrom(s, b)) == Lower(s)
  {
    if s != [] {
      var t := TitleFrom(s, b);
      assert t[1..] == TitleFrom(s[1..], IsLetter(s[0]));
      TitleFromLower(s[1..], IsLetter(s[0]));
      assert LowerChar(t[0]) == LowerChar(s[0]);
      LowerCons(t);
      LowerCons(s);
    }
  }

  /** `title()` is idempotent. */
  lemma {:induction false} TitleIdempotent(s: string)
    ensures Title(Title(s)) == Title(s)
  {
    TitleFromIdempotent(s, false);
  }

  /** `title()` changes letter case only: lower-casing undoes it. */
  lemma {:induction false} TitleKeepsText(s: string)
    ensures |Title(s)| == |s| && Lower(Title(s)) == Lower(s)
  {
    TitleFromLower(s, false);
  }

  // ---------------------------------------------------------------- strip

  /** `s.lstrip()` */
  function StripLeft(s: string): (r: string)
    ensures |r| <= |s| && r == s[|s| - |r|..]
    ensures forall i :: 0 <= i < |s| - |r| ==> IsSpace(s[i])
    ensures r != [] ==> !IsSpace(r[0])
  {
    if s != [] && IsSpace(s[0]) then StripLeft(s[1..]) else s
  }

  /** `s.rstrip()` */
  function StripRight(s: string): (r: string)
    ensures |r| <= |s| && r == s[..|r|]
    ensures forall i :: |r| <= i < |s| ==> IsSpace(s[i])
    ensures r != [] ==> !IsSpace(r[|r| - 1])
  {
    if s != [] && IsSpace(s[|s| - 1]) then StripRight(s[..|s| - 1]) else s
  }

  /** `r` is the slice of `s` that starts at `i`. */
  predicate SliceAt(s: string, i: int, r: string) {
    0 <= i && i + |r| <= |s| && r == s[i..i + |r|]
  }

  /** A prefix `r` of a suffix `l` of `s` is a slice of `s`. */
  lemma {:induction false} PrefixOfSuffix(s: string, l: string, r: string)
    requires |l| <= |s| && l == s[|s| - |l|..] && |r| <= |l| && r == l[..|r|]
    ensures SliceAt(s, |s| - |l|, r)
  {
  }

  /** Whitespace cut from the right of a suffix `s[i..]` is whitespace at the end of `s`. */
  lemma {:induction false} StripRightOfSuffix(s: string, i: nat)
    requires i <= |s|
    ensures forall k :: i + |StripRight(s[i..])| <= k < |s| ==> IsSpace(s[k])
  {
    var l := s[i..];
    var r := StripRight(l);
    forall k | i + |r| <= k < |s| ensures IsSpace(s[k]) {
      assert s[k] == l[k - i];
    }
  }

  /** Stripping both ends leaves a slice of `s`. */
  lemma {:induction false} StripSlice(s: string)
    ensures SliceAt(s, |s| - |StripLeft(s)|, StripRight(StripLeft(s)))
  {
    PrefixOfSuffix(s, StripLeft(s), StripRight(StripLeft(s)));
  }

  /** Neither end of the result is whitespace. */
  lemma {:induction false} StripEdges(s: string)
    ensures NoEdgeSpace(StripRight(StripLeft(s)))
  {
    var l := StripLeft(s);
    var r := StripRight(l);
    assert r != [] ==> r[0] == l[0];
  }

  /** `s.strip()`: a slice of `s` with no whitespace at either end. */
  function Strip(s: string): (r: string)
    ensures NoEdgeSpace(r)
    ensures SliceAt(s, |s| - |StripLeft(s)|, r)
  {
    StripSlice(s);
    StripEdges(s);
    StripRight(StripLeft(s))
  }

  /** `strip()` cuts whitespace only: everything outside the slice it keeps is whitespace. */
  lemma {:induction false} StripCutsSpaceOnly(s: string)
    ensures var i := |s| - |StripLeft(s)|; var r := Strip(s);
      && (forall k :: 0 <= k < i ==> IsSpace(s[k]))
      && (forall k :: i + |r| <= k < |s| ==> IsSpace(s[k]))
  {
    StripRightOfSuffix(s, |s| - |StripLeft(s)|);
  }

  // ---------------------------------------------------------------- split / join

  /** A piece of `split()`'s result: non-empty, without whitespace. */
  predicate IsWord(w: string) {
    w != [] && HasNoSpace(w)
  }

  /** The longest prefix of `s` without whitespace. */
  function TakeWord(s: string): (w: string)
    ensures |w| <= |s| && w == s[..|w|] && HasNoSpace(w)
    ensures |w| < |s| ==> IsSpace(s[|w|])
  {
    if s == [] || IsSpace(s[0]) then [] else [s[0]] + TakeWord(s[1..])
  }

  /** `s.split()`: the maximal runs of non-whitespace characters, in order. */
  function Split(s: string): (ws: seq<string>)
    ensures forall w :: w in ws ==> IsWord(w)
    decreases |s|
  {
    var t := StripLeft(s);
    if t == [] then []
    else
      var w := TakeWord(t);
      [w] + Split(t[|w|..])
  }

  /** `''.join(ws)` */
  function Concat(ws: seq<string>): string {
    if ws == [] then [] else ws[0] + Concat(ws[1..])
  }

  /** The non-whitespace characters of `s`, in order. */
  function NonSpace(s: string): string {
    if s == [] then [] else (if IsSpace(s[0]) then [] else [s[0]]) + NonSpace(s[1..])
  }

  /** The number of word starts of `s`: non-whitespace characters at the start or after whitespace (`afterSpace` at the start). */
  function StartsFrom(s: string, afterSpace: bool): nat {
    if s == [] then 0
    else (if afterSpace && !IsSpace(s[0]) then 1 else 0) + StartsFrom(s[1..], IsSpace(s[0]))
  }

  lemma {:induction false} NonSpaceAppend(a: string, b: string)
    ensures NonSpace(a + b) == NonSpace(a) + NonSpace(b)
  {
    if a != [] {
      assert (a + b)[1..] == a[1..] + b;
      NonSpaceAppend(a[1..], b);
    } else {
      assert a + b == b;
    }
  }

  lemma {:induction false} NonSpaceOfWord(w: string)
    requires HasNoSpace(w)
    ensures NonSpace(w) == w
  {
    if w != [] {
      NonSpaceOfWord(w[1..]);
    }
  }

  /** Leading whitespace holds no non-whitespace character and no word start. */
  lemma {:induction false} StripLeftKeeps(s: string)
    ensures NonSpace(StripLeft(s)) == NonSpace(s)
    ensures StartsFrom(StripLeft(s), true) == StartsFrom(s, true)
  {
    if s != [] && IsSpace(s[0]) {
      StripLeftKeeps(s[1..]);
      assert StripLeft(s) == StripLeft(s[1..]);
      assert NonSpace(s) == NonSpace(s[1..]);
      assert StartsFrom(s, true) == StartsFrom(s[1..], true);
    } else {
      assert StripLeft(s) == s;
    }
  }

  /** A word followed by whitespace or nothing starts exactly one word. */
  lemma {:induction false} StartsOfWord(w: string, t: string, b: bool)
    requires HasNoSpace(w) && (t == [] || IsSpace(t[0]))
    ensures StartsFrom(w + t, b) == (if b && w != [] then 1 else 0) + StartsFrom(t, true)
  {
    if w != [] {
      assert (w + t)[0] == w[0] && (w + t)[1..] == w[1..] + t;
      StartsOfWord(w[1..], t, false);
    } else {
      assert w + t == t;
    }
  }

  /** A text that starts with a non-whitespace character splits into its first word and the rest. */
  lemma {:induction false} FirstWord(t: string)
    requires t != [] && !IsSpace(t[0])
    ensures var w := TakeWord(t);
      w != [] && t == w + t[|w|..] && (t[|w|..] == [] || IsSpace(t[|w|..][0]))
  {
    var w := TakeWord(t);
    var rest := t[|w|..];
    assert t == w + rest;
    assert rest != [] ==> rest[0] == t[|w|];
  }

  /** The first word of `split()` and the text after it: the step both lemmas below take. */
  lemma {:induction false} SplitStep(s: string)
    requires StripLeft(s) != []
    ensures var t := StripLeft(s); var w := TakeWord(t);
      w != [] && HasNoSpace(w) && t == w + t[|w|..] && |t[|w|..]| < |s|
    ensures var t := StripLeft(s); var w := TakeWord(t);
      t[|w|..] == [] || IsSpace(t[|w|..][0])
    ensures var t := StripLeft(s); var w := TakeWord(t);
      Split(s) == [w] + Split(t[|w|..])
  {
    var t := StripLeft(s);
    var w := TakeWord(t);
    var rest := t[|w|..];
    FirstWord(t);
    assert Split(s) == [w] + Split(rest);
  }

  /**
   * `split()` loses no character but whitespace: the words, concatenated,
   * are the non-whitespace characters of `s` in order.
   */
  lemma {:induction false} SplitConcat(s: string)
    ensures Concat(Split(s)) == NonSpace(s)
    decreases |s|
  {
    var t := StripLeft(s);
    if t == [] {
      StripLeftKeeps(s);
    } else {
      SplitStep(s);
      var w := TakeWord(t);
      var rest := t[|w|..];
      var ws := [w] + Split(rest);
      calc {
        Concat(Split(s));
        Concat(ws);
        { assert ws[0] == w && ws[1..] == Split(rest); }
        w + Concat(Split(rest));
        { SplitConcat(rest); }
        w + NonSpace(rest);
        { NonSpaceOfWord(w); }
        NonSpace(w) + NonSpace(rest);
        { NonSpaceAppend(w, rest); }
        NonSpace(t);
        { StripLeftKeeps(s); }
        NonSpace(s);
      }
    }
  }

  /** The words of `split()` are maximal: there are as many as word starts in `s`. */
  lemma {:induction false} SplitCount(s: string)
    ensures |Split(s)| == StartsFrom(s, true)
    decreases |s|
  {
    var t := StripLeft(s);
    if t == [] {
      StripLeftKeeps(s);
    } else {
      SplitStep(s);
      var w := TakeWord(t);
      var rest := t[|w|..];
      calc {
        |Split(s)|;
        1 + |Split(rest)|;
        { SplitCount(rest); }
        1 + StartsFrom(rest, true);
        { StartsOfWord(w, rest, true); }
        StartsFrom(t, true);
        { StripLeftKeeps(s); }
        StartsFrom(s, true);
      }
    }
  }

  /** `sep.join(xs)` */
  function Join(sep: string, xs: seq<string>): string {
    if xs == [] then []
    else if |xs| == 1 then xs[0]
    else xs[0] + sep + Join(sep, xs[1..])
  }

  /** `" ".join(s.split())`: every whitespace run becomes one space, none at either end. */
  function Collapse(s: string): string {
    Join(" ", Split(s))
  }

  /**
   * A string `Collapse` can produce: its only whitespace is single spaces, each
   * strictly inside the string and followed by a non-whitespace character.
   */
  predicate IsCollapsed(t: string) {
    forall i :: 0 <= i < |t| && IsSpace(t[i]) ==> t[i] == ' ' && 0 < i < |t| - 1 && !IsSpace(t[i + 1])
  }

  lemma {:induction false} TakeWordOfWord(w: string, t: string)
    requires HasNoSpace(w) && (t == [] || IsSpace(t[0]))
    ensures TakeWord(w + t) == w
  {
    if w != [] {
      assert (w + t)[1..] == w[1..] + t;
      TakeWordOfWord(w[1..], t);
    } else {
      assert w + t == t;
    }
  }

  /** Whitespace in front of the text does not change the split. */
  lemma {:induction false} SplitSkipsSpace(c: char, t: string)
    requires IsSpace(c)
    ensures Split([c] + t) == Split(t)
  {
    assert ([c] + t)[1..] == t;
  }

  lemma {:induction false} JoinWordsShape(ws: seq<string>)
    requires forall w :: w in ws ==> IsWord(w)
    ensures ws != [] ==> Join(" ", ws) != [] && !IsSpace(Join(" ", ws)[0])
    ensures IsCollapsed(Join(" ", ws))
  {
    if |ws| > 1 {
      var w, j := ws[0], Join(" ", ws[1..]);
      assert IsWord(w) by { assert w in ws; }
      forall v | v in ws[1..] ensures IsWord(v) { assert v in ws; }
      JoinWordsShape(ws[1..]);
      var t := w + " " + j;
      assert Join(" ", ws) == t;
      forall i | 0 <= i < |t| && IsSpace(t[i])
        ensures t[i] == ' ' && 0 < i < |t| - 1 && !IsSpace(t[i + 1])
      {
        if i > |w| {
          var k := i - |w| - 1;
          assert t[i] == j[k];
          assert j[k] == ' ' && 0 < k < |j| - 1 && !IsSpace(j[k + 1]);
          assert t[i + 1] == j[k + 1];
        } else if i == |w| {
          assert t[i + 1] == j[0];
        }
      }
      assert t[0] == w[0];
    } else if |ws| == 1 {
      assert ws[0] in ws;
    }
  }

  /** A word followed by whitespace or nothing is the first word of the split. */
  lemma {:induction false} SplitWordThen(w: string, t: string)
    requires IsWord(w) && (t == [] || IsSpace(t[0]))
    ensures Split(w + t) == [w] + Split(t)
  {
    var x := w + t;
    assert StripLeft(x) == x by { assert x[0] == w[0]; }
    TakeWordOfWord(w, t);
    assert x[|w|..] == t;
  }

  /** Joining a word in front with a space puts it in front of the split. */
  lemma {:induction false} SplitJoinStep(w: string, rest: seq<string>)
    requires IsWord(w) && rest != []
    ensures Split(Join(" ", [w] + rest)) == [w] + Split(Join(" ", rest))
  {
    var ws := [w] + rest;
    var j := Join(" ", rest);
    assert ws[0] == w && ws[1..] == rest;
    assert Join(" ", ws) == w + " " + j;
    assert w + " " + j == w + ([' '] + j);
    SpaceAndNewline();
    SplitWordThen(w, [' '] + j);
    SplitSkipsSpace(' ', j);
  }

  /** A single word splits into itself. */
  lemma {:induction false} SplitOneWord(w: string)
    requires IsWord(w)
    ensures Split(w) == [w]
  {
    assert w + [] == w;
    TakeWordOfWord(w, []);
    assert StripLeft(w) == w by { assert !IsSpace(w[0]); }
    assert w[|w|..] == [];
    assert Split([]) == [];
  }

  /** `split()` undoes `" ".join` of words: the round trip behind `Collapse`. */
  lemma {:induction false} SplitJoin(ws: seq<string>)
    requires forall w :: w in ws ==> IsWord(w)
    ensures Split(Join(" ", ws)) == ws
  {
    if ws != [] {
      var w := ws[0];
      assert w in ws;
      if |ws| == 1 {
        SplitOneWord(w);
      } else {
        var rest := ws[1..];
        forall v | v in rest ensures IsWord(v) { assert v in ws; }
        SplitJoin(rest);
        assert [w] + rest == ws;
        SplitJoinStep(w, rest);
      }
    }
  }

  /** `Collapse` yields a collapsed string with the same words as its input. */
  lemma {:induction false} CollapseShape(s: string)
    ensures IsCollapsed(Collapse(s))
    ensures Split(Collapse(s)) == Split(s)
  {
    JoinWordsShape(Split(s));
    SplitJoin(Split(s));
  }

  /** Collapsing twice is collapsing once. */
  lemma {:induction false} CollapseIdempotent(s: string)
    ensures Collapse(Collapse(s)) == Collapse(s)
  {
    CollapseShape(s);
  }

  // ---------------------------------------------------------------- split(sep)

  /** Index of the first `c` in `s`, or `|s|` when there is none. */
  function IndexOf(s: string, c: char): (i: nat)
    ensures i <= |s| && (i < |s| ==> s[i] == c)
    ensures forall k :: 0 <= k < i ==> s[k] != c
  {
    if s == [] || s[0] == c then 0 else 1 + IndexOf(s[1..], c)
  }

  /** `s.split(c)` for a one-character separator: always at least one piece. */
  function SplitOn(s: string, c: char): (parts: seq<string>)
    ensures |parts| >= 1
    decreases |s|
  {
    var i := IndexOf(s, c);
    if i == |s| then [s] else [s[..i]] + SplitOn(s[i + 1..], c)
  }

  /** Splitting a `c`-joined list on `c` gives the list back, when no item holds `c`. */
  lemma {:induction false} SplitOnJoin(xs: seq<string>, c: char)
    requires |xs| >= 1
    requires forall x :: x in xs ==> c !in x
    ensures SplitOn(Join([c], xs), c) == xs
  {
    var x := xs[0];
    assert x in xs;
    if |xs| == 1 {
      assert IndexOf(x, c) == |x|;
    } else {
      var j := Join([c], xs[1..]);
      var s := x + [c] + j;
      assert Join([c], xs) == s;
      var i := IndexOf(s, c);
      assert s[|x|] == c;
      assert i == |x|;
      assert s[..i] == x && s[i + 1..] == j;
      forall y | y in xs[1..] ensures c !in y { assert y in xs; }
      SplitOnJoin(xs[1..], c);
      assert xs == [x] + xs[1..];
    }
  }

  /** A `c`-join of `n >= 1` items free of `c` holds exactly `n - 1` copies of `c`. */
  lemma {:induction false} CountJoin(xs: seq<string>, c: char)
    requires |xs| >= 1
    requires forall x :: x in xs ==> c !in x
    ensures multiset(Join([c], xs))[c] == |xs| - 1
  {
    assert xs[0] in xs;
    if |xs| > 1 {
      forall y | y in xs[1..] ensures c !in y { assert y in xs; }
      CountJoin(xs[1..], c);
      assert multiset(Join([c], xs)) == multiset(xs[0]) + multiset([c]) + multiset(Join([c], xs[1..]));
    }
  }

  // ---------------------------------------------------------------- replace

  /** `s.replace("", rep)`: `rep` before every character and at the end. */
  function Interleave(s: string, rep: string): (r: string)
    ensures forall i :: 0 <= i < |r| ==> r[i] in s || r[i] in rep
  {
    if s == [] then rep else rep + [s[0]] + Interleave(s[1..], rep)
  }

  /**
   * `s.replace(pat, rep)`: scanning left to right, every non-overlapping
   * occurrence of `pat` is replaced by `rep`. Every character of the result
   * comes from `s` or from `rep`.
   */
  function Replace(s: string, pat: string, rep: string): (r: string)
    ensures forall i :: 0 <= i < |r| ==> r[i] in s || r[i] in rep
    decreases |s|
  {
    if pat == [] then Interleave(s, rep)
    else if |s| < |pat| then s
    else if s[..|pat|] == pat then
      var rest := Replace(s[|pat|..], pat, rep);
      assert forall i :: 0 <= i < |rest| && rest[i] in s[|pat|..] ==> rest[i] in s;
      rep + rest
    else
      var rest := Replace(s[1..], pat, rep);
      assert forall i :: 0 <= i < |rest| && rest[i] in s[1..] ==> rest[i] in s;
      [s[0]] + rest
  }

  /** `pat` occurs in `s` at position `i`. */
  predicate MatchAt(s: string, pat: string, i: nat) {
    i + |pat| <= |s| && s[i..i + |pat|] == pat
  }

  /** `pat` occurs at no position of `s` before `i`. */
  predicate NoMatchBefore(s: string, pat: string, i: nat) {
    forall j: nat :: j < i ==> !MatchAt(s, pat, j)
  }

  /** `pat` occurs nowhere in `s`. */
  predicate NoMatch(s: string, pat: string) {
    forall i: nat :: i <= |s| ==> !MatchAt(s, pat, i)
  }

  /** A non-empty pattern that does not occur leaves the text as it is. */
  lemma {:induction false} ReplaceAbsent(s: string, pat: string, rep: string)
    requires pat != [] && NoMatch(s, pat)
    ensures Replace(s, pat, rep) == s
    decreases |s|
  {
    if |s| >= |pat| {
      assert !MatchAt(s, pat, 0);
      assert s[..|pat|] == s[0..|pat|];
      forall i: nat | i <= |s[1..]| ensures !MatchAt(s[1..], pat, i) {
        assert !MatchAt(s, pat, i + 1);
        if i + |pat| <= |s[1..]| {
          assert s[1..][i..i + |pat|] == s[i + 1..i + 1 + |pat|];
        }
      }
      ReplaceAbsent(s[1..], pat, rep);
      assert [s[0]] + s[1..] == s;
    }
  }

  /** With no match at the front, the first character is kept and the scan moves on by one. */
  lemma {:induction false} ReplaceSkip(s: string, pat: string, rep: string)
    requires pat != [] && s != [] && !MatchAt(s, pat, 0)
    ensures Replace(s, pat, rep) == [s[0]] + Replace(s[1..], pat, rep)
  {
    if |s| >= |pat| {
      assert s[..|pat|] == s[0..|pat|];
    } else {
      assert [s[0]] + s[1..] == s;
    }
  }

  /** A match at the front is replaced, and the scan resumes after it. */
  lemma {:induction false} ReplaceAtMatch(s: string, pat: string, rep: string)
    requires pat != [] && MatchAt(s, pat, 0)
    ensures Replace(s, pat, rep) == rep + Replace(s[|pat|..], pat, rep)
  {
    assert s[..|pat|] == s[0..|pat|];
  }

  /** No match before `i` in `s` means no match before `i - 1` in `s[1..]`. */
  lemma {:induction false} NoMatchBeforeShift(s: string, pat: string, i: nat)
    requires s != [] && 1 <= i && NoMatchBefore(s, pat, i)
    ensures NoMatchBefore(s[1..], pat, i - 1)
  {
    forall j: nat | j < i - 1 ensures !MatchAt(s[1..], pat, j) {
      assert !MatchAt(s, pat, j + 1);
      if j + |pat| <= |s[1..]| {
        assert s[1..][j..j + |pat|] == s[j + 1..j + 1 + |pat|];
      }
    }
  }

  /**
   * The first match of a non-empty pattern, at `i`, is replaced, the text
   * before it is kept, and the scan resumes after it. With `ReplaceAbsent`
   * this fixes `replace` for every non-empty pattern.
   */
  lemma {:induction false} ReplaceAtFirstMatch(s: string, pat: string, rep: string, i: nat)
    requires pat != [] && MatchAt(s, pat, i) && NoMatchBefore(s, pat, i)
    ensures Replace(s, pat, rep) == s[..i] + rep + Replace(s[i + |pat|..], pat, rep)
  {
    ReplaceKeepsSlice(s, pat, rep, i);
    MatchToFront(s, pat, i);
    ReplaceAtMatch(s[i..], pat, rep);
    assert s[i..][|pat|..] == s[i + |pat|..];
  }

  /** The slice form of `ReplaceKeepsPrefix`. */
  lemma {:induction false} ReplaceKeepsSlice(s: string, pat: string, rep: string, i: nat)
    requires pat != [] && i <= |s| && NoMatchBefore(s, pat, i)
    ensures Replace(s, pat, rep) == s[..i] + Replace(s[i..], pat, rep)
  {
    assert s[..i] + s[i..] == s;
    ReplaceKeepsPrefix(s[..i], s[i..], pat, rep);
  }

  /** A match at `i` is a match at the front of the text from `i` on. */
  lemma {:induction false} MatchToFront(s: string, pat: string, i: nat)
    requires MatchAt(s, pat, i)
    ensures MatchAt(s[i..], pat, 0)
  {
    assert s[i..][0..|pat|] == s[i..i + |pat|];
  }

  /** Text before the first match is copied as it is: `replace` starts its work at the match. */
  lemma {:induction false} ReplaceKeepsPrefix(p: string, x: string, pat: string, rep: string)
    requires pat != [] && NoMatchBefore(p + x, pat, |p|)
    ensures Replace(p + x, pat, rep) == p + Replace(x, pat, rep)
    decreases |p|
  {
    if p == [] {
      assert p + x == x;
    } else {
      var y := p[1..] + x;
      assert (p + x)[1..] == y;
      assert !MatchAt(p + x, pat, 0);
      ReplaceSkip(p + x, pat, rep);
      NoMatchBeforeShift(p + x, pat, |p|);
      ReplaceKeepsPrefix(p[1..], x, pat, rep);
      ConsPrefix(p, Replace(x, pat, rep));
    }
  }

  /** Putting the first character back in front of the rest of the prefix. */
  lemma {:induction false} ConsPrefix(p: string, r: string)
    requires p != []
    ensures [p[0]] + (p[1..] + r) == p + r
  {
    assert [p[0]] + p[1..] == p;
  }

  /** Every `c` of `s` turned into `rep`, every other character kept. */
  function MapChar(s: string, c: char, rep: string): string {
    if s == [] then [] else (if s[0] == c then rep else [s[0]]) + MapChar(s[1..], c, rep)
  }

  /** Replacing a one-character pattern works character by character. */
  lemma {:induction false} ReplaceOneChar(s: string, c: char, rep: string)
    ensures Replace(s, [c], rep) == MapChar(s, c, rep)
    decreases |s|
  {
    if s != [] {
      assert s[..1] == [s[0]];
      ReplaceOneChar(s[1..], c, rep);
    }
  }

  /** Replacing a one-character pattern by a text without it removes that character everywhere. */
  lemma {:induction false} ReplaceRemovesChar(s: string, c: char, rep: string)
    requires c !in rep
    ensures c !in Replace(s, [c], rep)
    decreases |s|
  {
    if |s| >= 1 {
      ReplaceRemovesChar(s[1..], c, rep);
    }
  }
}
