/** Text utilities over `seq<char>`, one element per Rust `char`, so that
    `chars().count()` is the sequence length. They model the parts of Rust's
    `str` API the bot relies on: `trim`, `trim_start`, `is_whitespace`,
    `split_whitespace`, `split(char)`, `join`, `to_ascii_lowercase` and
    `eq_ignore_ascii_case`. */
module Strings {
  import opened Base

  /** Rust's `char::is_whitespace`: ASCII space and `\t`..`\r`, plus the
      other characters with the Unicode White_Space property. */
  predicate IsWhitespace(c: char)
  {
    || c == ' '
    || ('\t' <= c <= '\r')
    || c == '\U{85}' || c == '\U{A0}' || c == '\U{1680}'
    || ('\U{2000}' <= c <= '\U{200A}')
    || c == '\U{2028}' || c == '\U{2029}' || c == '\U{202F}' || c == '\U{205F}'
    || c == '\U{3000}'
  }

  /** The 25 code points with the Unicode White_Space property, listed one
      by one. */
  const UnicodeWhiteSpace: set<char> := {
    '\t', '\n', '\U{0B}', '\U{0C}', '\r', ' ', '\U{85}', '\U{A0}', '\U{1680}',
    '\U{2000}', '\U{2001}', '\U{2002}', '\U{2003}', '\U{2004}', '\U{2005}',
    '\U{2006}', '\U{2007}', '\U{2008}', '\U{2009}', '\U{200A}',
    '\U{2028}', '\U{2029}', '\U{202F}', '\U{205F}', '\U{3000}'
  }

  /** `IsWhitespace` holds exactly for the White_Space code points. */
  lemma WhitespaceIsUnicodeWhiteSpace(c: char)
    ensures IsWhitespace(c) <==> c in UnicodeWhiteSpace
  {
  }

  predicate AllWhitespace(s: seq<char>)
  {
    forall i :: 0 <= i < |s| ==> IsWhitespace(s[i])
  }

  predicate NoWhitespace(s: seq<char>)
  {
    forall i :: 0 <= i < |s| ==> !IsWhitespace(s[i])
  }

  // ---------------------------------------------------------------------
  // Trimming

  /** `str::trim_start`: drops the longest all-whitespace prefix. */
  function TrimStart(s: seq<char>): (r: seq<char>)
    ensures |r| <= |s| && r == s[|s| - |r|..]
    ensures AllWhitespace(s[..|s| - |r|])
    ensures r != [] ==> !IsWhitespace(r[0])
    decreases |s|
  {
    if s != [] && IsWhitespace(s[0]) then
      var r := TrimStart(s[1..]);
      AllWhitespaceCons(s, |s| - 1 - |r|);
      r
    else s
  }

  /** A whitespace character in front of an all-whitespace prefix of the
      rest. */
  lemma AllWhitespaceCons(s: seq<char>, n: nat)
    requires n < |s| && IsWhitespace(s[0]) && AllWhitespace(s[1..][..n])
    ensures AllWhitespace(s[..n + 1])
  {
    var p, q := s[..n + 1], s[1..][..n];
    forall i | 0 <= i < |p|
      ensures IsWhitespace(p[i])
    {
      if i > 0 { assert p[i] == q[i - 1]; }
    }
  }

  /** `str::trim_end`: drops the longest all-whitespace suffix. */
  function TrimEnd(s: seq<char>): (r: seq<char>)
    ensures |r| <= |s| && r == s[..|r|]
    ensures AllWhitespace(s[|r|..])
    ensures r != [] ==> !IsWhitespace(r[|r| - 1])
    decreases |s|
  {
    if s != [] && IsWhitespace(s[|s| - 1]) then
      var r := TrimEnd(s[..|s| - 1]);
      assert s[|r|..] == s[..|s| - 1][|r|..] + [s[|s| - 1]];
      r
    else s
  }

  /** `str::trim`: removes whitespace from both ends. */
  function Trim(s: seq<char>): (r: seq<char>)
    ensures |r| <= |s|
    ensures r != [] ==> !IsWhitespace(r[0]) && !IsWhitespace(r[|r| - 1])
    ensures r == [] <==> AllWhitespace(s)
  {
    TrimEndsOfTrimStart(s);
    TrimEnd(TrimStart(s))
  }

  /** Non-empty, with no whitespace at either end. */
  predicate NonEmptyTrimmed(a: seq<char>)
  {
    a != [] && !IsWhitespace(a[0]) && !IsWhitespace(a[|a| - 1])
  }

  /** Trimming a non-blank string leaves no whitespace at either end. */
  lemma TrimmedEnds(s: seq<char>, a: seq<char>)
    requires a == Trim(s) && !IsBlank(s)
    ensures NonEmptyTrimmed(a)
  {
  }

  lemma TrimEndsOfTrimStart(s: seq<char>)
    ensures var r := TrimEnd(TrimStart(s));
      && (r != [] ==> !IsWhitespace(r[0]) && !IsWhitespace(r[|r| - 1]))
      && (r == [] <==> AllWhitespace(s))
  {
    var t := TrimStart(s);
    var r := TrimEnd(t);
    if r == [] {
      TrimEndEmpty(t);
      TrimStartAllWhitespace(s);
    } else {
      TrimStartHead(s);
    }
  }

  lemma TrimEndEmpty(t: seq<char>)
    requires TrimEnd(t) == []
    ensures AllWhitespace(t)
  {
    assert t[0..] == t;
  }

  /** When nothing but whitespace is left after `trim_start`, all of `s`
      is whitespace. */
  lemma TrimStartAllWhitespace(s: seq<char>)
    requires AllWhitespace(TrimStart(s))
    ensures AllWhitespace(s)
  {
    var t := TrimStart(s);
    var a := |s| - |t|;
    assert t == s[a..];
    assert s == s[..a] + s[a..];
    AllWhitespaceAppend(s[..a], t);
  }

  /** The first character `trim_start` keeps is not whitespace, so `s` is
      not all whitespace. */
  lemma TrimStartHead(s: seq<char>)
    requires TrimStart(s) != []
    ensures !AllWhitespace(s)
  {
    var t := TrimStart(s);
    var a := |s| - |t|;
    assert t == s[a..];
    assert s[a] == t[0];
  }

  /** `trim_start` leaves nothing exactly when there is only whitespace. */
  lemma TrimStartEmpty(s: seq<char>)
    ensures TrimStart(s) == [] <==> AllWhitespace(s)
  {
    if TrimStart(s) == [] {
      assert s[..|s|] == s;
    } else {
      TrimStartHead(s);
    }
  }

  /** What `trim` leaves is a slice of its input with only whitespace on
      either side. */
  lemma TrimIsSlice(s: seq<char>)
    ensures exists a :: 0 <= a <= |s| - |Trim(s)| && Trim(s) == s[a..a + |Trim(s)|]
                     && AllWhitespace(s[..a]) && AllWhitespace(s[a + |Trim(s)|..])
  {
    TrimUnfold(s);
    SliceOfSlice(s, TrimStart(s), Trim(s));
  }

  lemma TrimUnfold(s: seq<char>)
    ensures Trim(s) == TrimEnd(TrimStart(s))
  {
  }

  /** A prefix of a suffix, each cut off whitespace, is a slice with
      whitespace on either side. */
  lemma SliceOfSlice(s: seq<char>, t: seq<char>, r: seq<char>)
    requires |t| <= |s| && t == s[|s| - |t|..] && AllWhitespace(s[..|s| - |t|])
    requires |r| <= |t| && r == t[..|r|] && AllWhitespace(t[|r|..])
    ensures exists a :: 0 <= a <= |s| - |r| && r == s[a..a + |r|]
                     && AllWhitespace(s[..a]) && AllWhitespace(s[a + |r|..])
  {
    var a := |s| - |t|;
    SliceOfSuffix(s, a, |r|);
    assert t[|r|..] == s[a + |r|..];
  }

  lemma AllWhitespaceAppend(a: seq<char>, b: seq<char>)
    requires AllWhitespace(a) && AllWhitespace(b)
    ensures AllWhitespace(a + b)
  {
    forall i | 0 <= i < |a + b|
      ensures IsWhitespace((a + b)[i])
    {
      if i < |a| { assert (a + b)[i] == a[i]; } else { assert (a + b)[i] == b[i - |a|]; }
    }
  }

  /** A string is blank when `trim()` leaves nothing of it. */
  predicate IsBlank(s: seq<char>)
  {
    Trim(s) == []
  }

  lemma {:induction false} TrimOfTrimmed(s: seq<char>)
    requires s != [] ==> !IsWhitespace(s[0]) && !IsWhitespace(s[|s| - 1])
    ensures Trim(s) == s
  {
    assert TrimStart(s) == s;
    assert TrimEnd(s) == s;
  }

  /** `trim` is idempotent. */
  lemma TrimIdempotent(s: seq<char>)
    ensures Trim(Trim(s)) == Trim(s)
  {
    TrimOfTrimmed(Trim(s));
  }

  // ---------------------------------------------------------------------
  // ASCII case

  function AsciiLower(c: char): char
  {
    if 'A' <= c <= 'Z' then (c as int + 32) as char else c
  }

  /** `str::to_ascii_lowercase`: folds `A`..`Z` and keeps every other
      character. */
  function ToAsciiLowercase(s: seq<char>): (r: seq<char>)
    ensures |r| == |s|
    ensures forall i :: 0 <= i < |s| ==> r[i] == AsciiLower(s[i])
  {
    if s == [] then [] else [AsciiLower(s[0])] + ToAsciiLowercase(s[1..])
  }

  /** `str::eq_ignore_ascii_case`: same length and pairwise equal after ASCII
      folding. Rust compares UTF-8 bytes; since folding touches only ASCII
      bytes and UTF-8 is injective, comparing characters is the same. */
  predicate EqIgnoreAsciiCase(a: seq<char>, b: seq<char>)
  {
    |a| == |b| && forall i :: 0 <= i < |a| ==> AsciiLower(a[i]) == AsciiLower(b[i])
  }

  lemma EqIgnoreAsciiCaseIffSameLowercase(a: seq<char>, b: seq<char>)
    ensures EqIgnoreAsciiCase(a, b) <==> ToAsciiLowercase(a) == ToAsciiLowercase(b)
  {
    if ToAsciiLowercase(a) == ToAsciiLowercase(b) {
      assert forall i :: 0 <= i < |a| ==> ToAsciiLowercase(a)[i] == ToAsciiLowercase(b)[i];
    }
  }

  // ---------------------------------------------------------------------
  // Searching

  /** Index of the first occurrence of `c`. */
  function IndexOf(s: seq<char>, c: char): (r: Option<nat>)
    ensures r.None? <==> c !in s
    ensures r.Some? ==> r.value < |s| && s[r.value] == c && c !in s[..r.value]
  {
    if s == [] then None
    else if s[0] == c then Some(0)
    else match IndexOf(s[1..], c)
      case None => None
      case Some(i) =>
        assert s[..i + 1] == [s[0]] + s[1..][..i];
        Some(i + 1)
  }

  /** `str::find(char::is_whitespace)`: index of the first whitespace. */
  function FindWhitespace(s: seq<char>): (r: Option<nat>)
    ensures r.None? <==> NoWhitespace(s)
    ensures r.Some? ==> r.value < |s| && IsWhitespace(s[r.value]) && NoWhitespace(s[..r.value])
  {
    if s == [] then None
    else if IsWhitespace(s[0]) then Some(0)
    else match FindWhitespace(s[1..])
      case None => None
      case Some(i) =>
        assert s[..i + 1] == [s[0]] + s[1..][..i];
        Some(i + 1)
  }

  // ---------------------------------------------------------------------
  // Splitting and joining

  /** `slice.join(sep)`: the pieces in order with `sep` between neighbours;
      joining nothing gives the empty string. */
  function Join(ss: seq<seq<char>>, sep: seq<char>): seq<char>
  {
    if ss == [] then []
    else if |ss| == 1 then ss[0]
    else ss[0] + sep + Join(ss[1..], sep)
  }

  /** A join starts with the first piece and ends with the last, and holds
      every piece plus one separator between each neighbouring pair. */
  lemma {:induction false} JoinShape(ss: seq<seq<char>>, sep: seq<char>)
    ensures ss == [] ==> Join(ss, sep) == []
    ensures ss != [] ==> var r := Join(ss, sep);
      && |ss[0]| <= |r| && r[..|ss[0]|] == ss[0]
      && |ss[|ss| - 1]| <= |r| && r[|r| - |ss[|ss| - 1]|..] == ss[|ss| - 1]
      && |r| == |Flatten(ss)| + (|ss| - 1) * |sep|
  {
    if ss != [] {
      JoinFirst(ss, sep);
      JoinLast(ss, sep);
      JoinLength(ss, sep);
    }
  }

  lemma JoinFirst(ss: seq<seq<char>>, sep: seq<char>)
    requires ss != []
    ensures var r := Join(ss, sep); |ss[0]| <= |r| && r[..|ss[0]|] == ss[0]
  {
    if |ss| > 1 {
      AppendAssoc(ss[0], sep, Join(ss[1..], sep));
    }
  }

  lemma {:induction false} JoinLast(ss: seq<seq<char>>, sep: seq<char>)
    requires ss != []
    ensures var r := Join(ss, sep); |ss[|ss| - 1]| <= |r| && r[|r| - |ss[|ss| - 1]|..] == ss[|ss| - 1]
    decreases |ss|
  {
    if |ss| > 1 {
      JoinLast(ss[1..], sep);
      var rest := Join(ss[1..], sep);
      var r := ss[0] + sep + rest;
      assert r[|r| - |rest|..] == rest;
      assert ss[1..][|ss| - 2] == ss[|ss| - 1];
    }
  }

  lemma {:induction false} JoinLength(ss: seq<seq<char>>, sep: seq<char>)
    requires ss != []
    ensures |Join(ss, sep)| == |Flatten(ss)| + (|ss| - 1) * |sep|
    decreases |ss|
  {
    if |ss| == 1 {
      assert Flatten(ss) == ss[0] + Flatten([]);
    } else {
      JoinLength(ss[1..], sep);
      assert Flatten(ss) == ss[0] + Flatten(ss[1..]);
      assert |Join(ss, sep)| == |ss[0]| + |sep| + |Join(ss[1..], sep)|;
    }
  }

  lemma {:induction false} JoinAppend(a: seq<seq<char>>, b: seq<seq<char>>, sep: seq<char>)
    requires a != [] && b != []
    ensures Join(a + b, sep) == Join(a, sep) + sep + Join(b, sep)
    decreases |a|
  {
    if |a| == 1 {
      assert (a + b)[1..] == b;
    } else {
      assert (a + b)[1..] == a[1..] + b;
      JoinAppend(a[1..], b, sep);
    }
  }

  /** `str::split(c)`: the maximal `c`-free pieces; there is always at least
      one piece, and an empty string gives one empty piece. */
  function Split(s: seq<char>, c: char): (r: seq<seq<char>>)
    ensures |r| >= 1
    ensures forall i :: 0 <= i < |r| ==> c !in r[i]
    decreases |s|
  {
    match IndexOf(s, c)
    case None => [s]
    case Some(i) => [s[..i]] + Split(s[i + 1..], c)
  }

  /** A separator-free piece followed by the separator is the first piece. */
  lemma SplitAfterPiece(p: seq<char>, rest: seq<char>, c: char)
    requires c !in p
    ensures Split(p + [c] + rest, c) == [p] + Split(rest, c)
  {
    var s := p + [c] + rest;
    assert s[|p|] == c && s[..|p|] == p;
    assert IndexOf(s, c) == Some(|p|);
    assert s[|p| + 1..] == rest;
  }

  /** Two separators in a row leave an empty piece between them. */
  lemma SplitTwoSeparators(p: seq<char>, q: seq<char>, c: char)
    requires c !in p && c !in q
    ensures Split(p + [c] + [c] + q, c) == [p, [], q]
  {
    assert p + [c] + [c] + q == p + [c] + ([c] + q);
    SplitAfterPiece(p, [c] + q, c);
    assert [] + [c] + q == [c] + q;
    SplitAfterPiece([], q, c);
    assert Split(q, c) == [q];
  }

  /** Joining the pieces of a split with the separator gives the input back. */
  lemma {:induction false} JoinSplit(s: seq<char>, c: char)
    ensures Join(Split(s, c), [c]) == s
    decreases |s|
  {
    match IndexOf(s, c)
    case None =>
    case Some(i) =>
      JoinSplit(s[i + 1..], c);
      assert Split(s, c)[1..] == Split(s[i + 1..], c);
      Decompose(s, i);
  }

  /** Splitting a join of separator-free pieces gives the pieces back. */
  lemma {:induction false} SplitJoin(ss: seq<seq<char>>, c: char)
    requires ss != []
    requires forall i :: 0 <= i < |ss| ==> c !in ss[i]
    ensures Split(Join(ss, [c]), c) == ss
    decreases |ss|
  {
    if |ss| > 1 {
      var s := Join(ss, [c]);
      var i := |ss[0]|;
      assert s[..i] == ss[0] && s[i] == c;
      assert IndexOf(s, c) == Some(i);
      assert s[i + 1..] == Join(ss[1..], [c]);
      SplitJoin(ss[1..], c);
    }
  }

  /** A word: non-empty and free of whitespace. */
  predicate IsWord(w: seq<char>)
  {
    w != [] && NoWhitespace(w)
  }

  predicate AllWords(ws: seq<seq<char>>)
  {
    forall i :: 0 <= i < |ws| ==> IsWord(ws[i])
  }

  lemma AllWordsCons(w: seq<char>, ws: seq<seq<char>>)
    requires IsWord(w) && AllWords(ws)
    ensures AllWords([w] + ws)
  {
    forall i | 0 <= i < |[w] + ws|
      ensures IsWord(([w] + ws)[i])
    {
      if i > 0 { assert ([w] + ws)[i] == ws[i - 1]; }
    }
  }

  /** `str::split_whitespace`: the maximal non-empty whitespace-free words. */
  function SplitWhitespace(s: seq<char>): (r: seq<seq<char>>)
    ensures AllWords(r)
    decreases |s|
  {
    var t := TrimStart(s);
    if t == [] then []
    else match FindWhitespace(t)
      case None => [t]
      case Some(k) =>
        assert k > 0;
        var rest := SplitWhitespace(t[k..]);
        AllWordsCons(t[..k], rest);
        [t[..k]] + rest
  }

  lemma FindWhitespaceAfterWord(w: seq<char>, rest: seq<char>)
    requires NoWhitespace(w) && rest != [] && IsWhitespace(rest[0])
    ensures FindWhitespace(w + rest) == Some(|w|)
  {
    var s := w + rest;
    assert s[|w|] == rest[0];
    assert s[..|w|] == w;
  }

  lemma TrimStartOfWordStart(s: seq<char>)
    requires s != [] && !IsWhitespace(s[0])
    ensures TrimStart(s) == s
  {
  }

  /** Peeling the first word off a space-separated text. */
  lemma SplitWhitespaceCons(w: seq<char>, rest: seq<char>)
    requires IsWord(w) && rest != [] && !IsWhitespace(rest[0])
    ensures SplitWhitespace(w + " " + rest) == [w] + SplitWhitespace(rest)
  {
    var tail := " " + rest;
    var s := w + tail;
    AppendAssoc(w, " ", rest);
    assert s[0] == w[0];
    TrimStartOfWordStart(s);
    FindWhitespaceAfterWord(w, tail);
    UnfoldSplitWhitespace(s, |w|);
    assert s[..|w|] == w;
    assert s[|w|..] == tail;
    SplitWhitespaceSkip(' ', rest);
  }

  /** A text that starts with a word and has whitespace after it. */
  lemma UnfoldSplitWhitespace(s: seq<char>, k: nat)
    requires s != [] && !IsWhitespace(s[0]) && FindWhitespace(s) == Some(k)
    ensures SplitWhitespace(s) == [s[..k]] + SplitWhitespace(s[k..])
  {
    TrimStartOfWordStart(s);
  }

  /** Leading whitespace does not change the words. */
  lemma SplitWhitespaceSkip(c: char, rest: seq<char>)
    requires IsWhitespace(c)
    ensures SplitWhitespace([c] + rest) == SplitWhitespace(rest)
  {
    assert ([c] + rest)[1..] == rest;
    assert TrimStart([c] + rest) == TrimStart(rest);
  }

  lemma SplitWhitespaceWord(w: seq<char>)
    requires IsWord(w)
    ensures SplitWhitespace(w) == [w]
  {
    TrimStartOfWordStart(w);
  }

  lemma JoinHead(ws: seq<seq<char>>, sep: seq<char>)
    requires ws != [] && ws[0] != []
    ensures Join(ws, sep) != [] && Join(ws, sep)[0] == ws[0][0]
  {
    if |ws| > 1 {
      assert Join(ws, sep) == ws[0] + (sep + Join(ws[1..], sep));
    }
  }

  /** Each group joined, in order. */
  function JoinEach(gs: seq<seq<seq<char>>>, sep: seq<char>): (r: seq<seq<char>>)
    ensures |r| == |gs|
    ensures forall i :: 0 <= i < |gs| ==> r[i] == Join(gs[i], sep)
  {
    if gs == [] then [] else [Join(gs[0], sep)] + JoinEach(gs[1..], sep)
  }

  /** Joining the joined groups is joining all their pieces, as long as no
      group is empty. */
  lemma {:induction false} JoinFlatten(gs: seq<seq<seq<char>>>, sep: seq<char>)
    requires forall i :: 0 <= i < |gs| ==> gs[i] != []
    ensures Join(JoinEach(gs, sep), sep) == Join(Flatten(gs), sep)
    decreases |gs|
  {
    if |gs| == 1 {
      assert JoinEach(gs, sep) == [Join(gs[0], sep)];
      assert Flatten(gs) == gs[0] + Flatten([]);
      assert gs[0] + [] == gs[0];
    } else if |gs| > 1 {
      JoinFlatten(gs[1..], sep);
      assert JoinEach(gs, sep)[1..] == JoinEach(gs[1..], sep);
      assert Flatten(gs[1..]) != [] by {
        assert Flatten(gs[1..]) == gs[1] + Flatten(gs[2..]);
      }
      JoinAppend(gs[0], Flatten(gs[1..]), sep);
    }
  }

  /** Words joined by single spaces split back into the same words. */
  lemma {:induction false} SplitWhitespaceJoin(words: seq<seq<char>>)
    requires AllWords(words)
    ensures SplitWhitespace(Join(words, " ")) == words
    decreases |words|
  {
    if |words| == 1 {
      SplitWhitespaceWord(words[0]);
      ConsTail(words);
    } else if |words| > 1 {
      var w, ws := words[0], words[1..];
      var rest := Join(ws, " ");
      assert Join(words, " ") == w + " " + rest;
      JoinHead(ws, " ");
      SplitWhitespaceCons(w, rest);
      SplitWhitespaceJoin(ws);
      ConsTail(words);
    }
  }

  /** The text `gaps[0] + words[0] + gaps[1] + … + words[n - 1] + gaps[n]`:
      words with the whitespace runs before, between and after them. */
  function Interleave(gaps: seq<seq<char>>, words: seq<seq<char>>): seq<char>
    requires |gaps| == |words| + 1
    decreases |words|
  {
    if words == [] then gaps[0]
    else gaps[0] + words[0] + Interleave(gaps[1..], words[1..])
  }

  /** Whitespace gaps, where every gap between two words is non-empty. */
  predicate Separators(gaps: seq<seq<char>>)
  {
    && (forall i :: 0 <= i < |gaps| ==> AllWhitespace(gaps[i]))
    && (forall i :: 0 < i < |gaps| - 1 ==> gaps[i] != [])
  }

  /** `s` is `words` with whitespace gaps around them, at least one
      whitespace character between two words. */
  ghost predicate IsInterleaving(s: seq<char>, words: seq<seq<char>>)
  {
    exists gaps :: |gaps| == |words| + 1 && Separators(gaps) && s == Interleave(gaps, words)
  }

  lemma SeparatorsTail(gaps: seq<seq<char>>)
    requires gaps != [] && Separators(gaps)
    ensures Separators(gaps[1..])
  {
    var t := gaps[1..];
    assert forall i :: 0 <= i < |t| ==> t[i] == gaps[i + 1];
  }

  /** An interleaving starts with whitespace, or is empty. */
  lemma InterleaveStart(gaps: seq<seq<char>>, words: seq<seq<char>>)
    requires |gaps| == |words| + 1 && AllWhitespace(gaps[0])
    requires words != [] ==> gaps[0] != []
    ensures var r := Interleave(gaps, words); r == [] || IsWhitespace(r[0])
  {
    if words != [] {
      AppendAssoc(gaps[0], words[0], Interleave(gaps[1..], words[1..]));
    }
  }

  /** Leading whitespace, however long, is what `trim_start` drops. */
  lemma {:induction false} TrimStartSkipAll(g: seq<char>, rest: seq<char>)
    requires AllWhitespace(g)
    ensures TrimStart(g + rest) == TrimStart(rest)
    decreases |g|
  {
    if g != [] {
      var s := g + rest;
      assert s[0] == g[0] && IsWhitespace(g[0]);
      assert s[1..] == g[1..] + rest;
      assert TrimStart(s) == TrimStart(s[1..]);
      TrimStartSkipAll(g[1..], rest);
    } else {
      assert g + rest == rest;
    }
  }

  /** The words depend only on what `trim_start` leaves. */
  lemma SplitWhitespaceOfTrimStart(x: seq<char>, y: seq<char>)
    requires TrimStart(x) == TrimStart(y)
    ensures SplitWhitespace(x) == SplitWhitespace(y)
  {
  }

  /** Leading whitespace, however long, does not change the words. */
  lemma SplitWhitespaceSkipAll(g: seq<char>, rest: seq<char>)
    requires AllWhitespace(g)
    ensures SplitWhitespace(g + rest) == SplitWhitespace(rest)
  {
    TrimStartSkipAll(g, rest);
    SplitWhitespaceOfTrimStart(g + rest, rest);
  }

  /** A word followed by nothing or by whitespace is the first word. */
  lemma SplitWhitespaceWordThen(w: seq<char>, rest: seq<char>)
    requires IsWord(w) && (rest == [] || IsWhitespace(rest[0]))
    ensures SplitWhitespace(w + rest) == [w] + SplitWhitespace(rest)
  {
    if rest == [] {
      assert w + rest == w;
      SplitWhitespaceWord(w);
    } else {
      var s := w + rest;
      assert s[0] == w[0];
      FindWhitespaceAfterWord(w, rest);
      UnfoldSplitWhitespace(s, |w|);
      assert s[..|w|] == w;
      assert s[|w|..] == rest;
    }
  }

  /** Words with whitespace gaps around them, at least one between two
      words, split back into exactly those words. */
  lemma {:induction false} SplitWhitespaceInterleave(gaps: seq<seq<char>>, words: seq<seq<char>>)
    requires |gaps| == |words| + 1 && Separators(gaps) && AllWords(words)
    ensures SplitWhitespace(Interleave(gaps, words)) == words
    decreases |words|
  {
    if words == [] {
      TrimStartEmpty(gaps[0]);
    } else {
      var rest := Interleave(gaps[1..], words[1..]);
      SeparatorsTail(gaps);
      assert AllWords(words[1..]) by {
        assert forall i :: 0 <= i < |words| - 1 ==> words[1..][i] == words[i + 1];
      }
      SplitWhitespaceInterleave(gaps[1..], words[1..]);
      InterleaveStart(gaps[1..], words[1..]);
      SplitWhitespaceWordThen(words[0], rest);
      AppendAssoc(gaps[0], words[0], rest);
      SplitWhitespaceSkipAll(gaps[0], words[0] + rest);
      ConsTail(words);
    }
  }

  /** Every text is its words interleaved with whitespace gaps, at least one
      whitespace character between two words: `split_whitespace` loses
      nothing but whitespace and keeps the words in order. */
  lemma {:induction false} SplitWhitespaceGaps(s: seq<char>)
    ensures IsInterleaving(s, SplitWhitespace(s))
    decreases |s|
  {
    var t := TrimStart(s);
    if t == [] {
      SplitWhitespaceBlank(s);
    } else {
      match FindWhitespace(t)
      case None =>
        SplitWhitespaceLastWord(s, t);
      case Some(k) =>
        SplitWhitespaceGapsStep(s, t, k);
    }
  }

  /** `split_whitespace` gives exactly the words that the text interleaves
      with whitespace. */
  lemma SplitWhitespaceIff(s: seq<char>, words: seq<seq<char>>)
    ensures SplitWhitespace(s) == words <==> AllWords(words) && IsInterleaving(s, words)
  {
    if AllWords(words) && IsInterleaving(s, words) {
      var gaps :| |gaps| == |words| + 1 && Separators(gaps) && s == Interleave(gaps, words);
      SplitWhitespaceInterleave(gaps, words);
    }
    SplitWhitespaceGaps(s);
  }

  /** The case of `SplitWhitespaceGaps` where there is no word. */
  lemma SplitWhitespaceBlank(s: seq<char>)
    requires TrimStart(s) == []
    ensures IsInterleaving(s, SplitWhitespace(s))
  {
    TrimStartEmpty(s);
    assert SplitWhitespace(s) == [];
    assert Separators([s]);
    InterleavingWitness(s, [], [s]);
  }

  /** The case of `SplitWhitespaceGaps` where the first word runs to the
      end. */
  lemma SplitWhitespaceLastWord(s: seq<char>, t: seq<char>)
    requires t == TrimStart(s) && t != [] && FindWhitespace(t).None?
    ensures IsInterleaving(s, SplitWhitespace(s))
  {
    SplitWhitespaceOneWord(s, t);
    var lead := s[..|s| - |t|];
    SplitAt(s, |s| - |t|);
    InterleaveOne(lead, t);
    InterleavingWitness(s, [t], [lead, []]);
  }

  /** A text whose words run to its end holds one word. */
  lemma SplitWhitespaceOneWord(s: seq<char>, t: seq<char>)
    requires t == TrimStart(s) && t != [] && FindWhitespace(t).None?
    ensures SplitWhitespace(s) == [t]
  {
  }

  /** One word with whitespace before it and nothing after. */
  lemma InterleaveOne(lead: seq<char>, t: seq<char>)
    requires AllWhitespace(lead)
    ensures Separators([lead, []]) && Interleave([lead, []], [t]) == lead + t
  {
    assert Interleave([lead, []][1..], []) == [];
    assert lead + t + [] == lead + t;
  }

  /** Unfolding `split_whitespace` at its first word. */
  lemma SplitWhitespaceFirst(s: seq<char>, t: seq<char>, k: nat)
    requires t == TrimStart(s) && t != [] && FindWhitespace(t) == Some(k)
    ensures 0 < k < |t| && IsWord(t[..k]) && IsWhitespace(t[k..][0])
    ensures SplitWhitespace(s) == [t[..k]] + SplitWhitespace(t[k..])
  {
  }

  /** The case of `SplitWhitespaceGaps` where the first word is followed by
      whitespace. */
  lemma {:induction false} SplitWhitespaceGapsStep(s: seq<char>, t: seq<char>, k: nat)
    requires t == TrimStart(s) && t != [] && FindWhitespace(t) == Some(k)
    ensures IsInterleaving(s, SplitWhitespace(s))
    decreases |s|, 0
  {
    var lead := s[..|s| - |t|];
    assert s == lead + t;
    SplitWhitespaceFirst(s, t, k);
    var w, u := t[..k], t[k..];
    var rest := SplitWhitespace(u);
    SplitWhitespaceGaps(u);
    var gs :| |gs| == |rest| + 1 && Separators(gs) && u == Interleave(gs, rest);
    GapsExtend(lead, w, u, gs, rest);
    SplitAt(t, k);
    AppendAssoc(lead, w, u);
    InterleavingWitness(s, [w] + rest, [lead] + gs);
  }

  lemma InterleavingWitness(s: seq<char>, words: seq<seq<char>>, gaps: seq<seq<char>>)
    requires |gaps| == |words| + 1 && Separators(gaps) && s == Interleave(gaps, words)
    ensures IsInterleaving(s, words)
  {
  }

  /** Putting one more word, and the whitespace before it, in front of an
      interleaving that starts with whitespace. */
  lemma GapsExtend(lead: seq<char>, w: seq<char>, u: seq<char>, gs: seq<seq<char>>, rest: seq<seq<char>>)
    requires AllWhitespace(lead) && IsWord(w) && u != [] && IsWhitespace(u[0])
    requires |gs| == |rest| + 1 && Separators(gs) && AllWords(rest) && u == Interleave(gs, rest)
    ensures Separators([lead] + gs)
    ensures lead + w + u == Interleave([lead] + gs, [w] + rest)
  {
    FirstGapNonEmpty(u, gs, rest);
    var gaps := [lead] + gs;
    assert gaps[1..] == gs && ([w] + rest)[1..] == rest;
    assert forall i :: 0 < i < |gaps| ==> gaps[i] == gs[i - 1];
  }

  /** An interleaving that starts with whitespace has a non-empty first gap,
      unless it holds no word. */
  lemma FirstGapNonEmpty(u: seq<char>, gs: seq<seq<char>>, rest: seq<seq<char>>)
    requires u != [] && IsWhitespace(u[0])
    requires |gs| == |rest| + 1 && AllWords(rest) && u == Interleave(gs, rest)
    ensures rest != [] ==> gs[0] != []
  {
    if rest != [] && gs[0] == [] {
      assert IsWord(rest[0]);
      AppendAssoc(gs[0], rest[0], Interleave(gs[1..], rest[1..]));
      assert false;
    }
  }
}
