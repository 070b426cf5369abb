/** The two message splitters of the Telegram front end. Each turns an answer
    into the ordered sequence of chunks the bot hands to the checked senders;
    the sends themselves are not modelled, only the chunks they receive.

    - `SplitSend` is the plain-text splitter: a greedy word wrap over the
      tokens of `split_inclusive([' ', '\n'])`, hard-splitting any token that
      alone exceeds the limit.
    - `SplitSendFormatted` is the rich-text splitter: it packs whole
      `'\n'`-separated lines and gives up (a fatal panic in the bot) on a line
      longer than the limit.

    Both are written for an arbitrary limit `L > 0` and instantiated at
    Telegram's 4096-character limit. */
module Telegram {
  import opened Base
  import opened Strings

  /** Telegram's maximum message length, in characters. */
  const MaxMessageLength: nat := 4096

  // ---------------------------------------------------------------------
  // Tokens: `str::split_inclusive([' ', '\n'])`

  predicate IsSeparator(c: char)
  {
    c == ' ' || c == '\n'
  }

  /** A token is non-empty and holds a separator, if at all, only as its last
      character. */
  predicate IsToken(t: seq<char>)
  {
    t != [] && forall j :: 0 <= j < |t| - 1 ==> !IsSeparator(t[j])
  }

  predicate EndsWithSeparator(t: seq<char>)
  {
    t != [] && IsSeparator(t[|t| - 1])
  }

  /** Length of the first token of `s`: up to and including the first
      separator, or all of `s` when there is none. */
  function TokenEnd(s: seq<char>): (k: nat)
    requires s != []
    ensures 0 < k <= |s|
    ensures IsToken(s[..k])
    ensures k < |s| ==> IsSeparator(s[k - 1])
    decreases |s|
  {
    if IsSeparator(s[0]) || |s| == 1 then 1
    else
      var k := 1 + TokenEnd(s[1..]);
      assert s[..k] == [s[0]] + s[1..][..k - 1];
      k
  }

  /** `str::split_inclusive([' ', '\n'])`: the pieces of `s` cut just after
      every separator. The empty string has no pieces, and a trailing
      separator does not produce an empty last piece. */
  function Tokens(s: seq<char>): (r: seq<seq<char>>)
    ensures Flatten(r) == s
    ensures forall i :: 0 <= i < |r| ==> IsToken(r[i])
    ensures forall i :: 0 <= i < |r| - 1 ==> EndsWithSeparator(r[i])
    decreases |s|
  {
    if s == [] then []
    else
      var k := TokenEnd(s);
      var rest := Tokens(s[k..]);
      var r := [s[..k]] + rest;
      assert r[1..] == rest;
      assert s == s[..k] + s[k..];
      assert Flatten(r) == s[..k] + Flatten(rest);
      assert k == |s| ==> rest == [];
      assert forall i :: 1 <= i < |r| ==> r[i] == rest[i - 1];
      r
  }

  // ---------------------------------------------------------------------
  // The plain-text splitter (`bot_split_send`)

  /** Every chunk is non-empty and within the limit. */
  predicate ChunksFit(r: seq<seq<char>>, L: nat)
  {
    forall i :: 0 <= i < |r| ==> 0 < |r[i]| <= L
  }

  /** Sending `a` and then `c` sends their concatenation, and fits when both
      parts do. */
  lemma SendBoth(a: seq<seq<char>>, c: seq<seq<char>>, L: nat)
    ensures Flatten(a + c) == Flatten(a) + Flatten(c)
    ensures ChunksFit(a, L) && ChunksFit(c, L) ==> ChunksFit(a + c, L)
  {
    FlattenAppend(a, c);
    if ChunksFit(a, L) && ChunksFit(c, L) {
      forall i | 0 <= i < |a + c| ensures 0 < |(a + c)[i]| <= L {
        if i < |a| { assert (a + c)[i] == a[i]; } else { assert (a + c)[i] == c[i - |a|]; }
      }
    }
  }

  /** The character-by-character split of a token longer than the limit:
      pieces of exactly `L` characters, then one last non-empty piece of at
      most `L`. */
  function HardSplit(t: seq<char>, L: nat): (r: seq<seq<char>>)
    requires L > 0
    ensures Flatten(r) == t
    ensures ChunksFit(r, L)
    ensures forall i :: 0 <= i < |r| - 1 ==> |r[i]| == L
    ensures t != [] ==> r != []
    decreases |t|
  {
    if t == [] then []
    else if |t| <= L then [t]
    else
      var r := [t[..L]] + HardSplit(t[L..], L);
      assert r[1..] == HardSplit(t[L..], L);
      assert t == t[..L] + t[L..];
      r
  }

  /** Sending what the buffer holds, if anything. */
  function Flush(buf: seq<char>): (r: seq<seq<char>>)
    ensures Flatten(r) == buf
    ensures forall i :: 0 <= i < |r| ==> r[i] == buf != []
  {
    if buf == [] then [] else [buf]
  }

  /** The chunks sent from the current point of the token loop on, given the
      remaining tokens and the buffer accumulated so far; the final flush
      after the loop is included. A token longer than `L` first flushes the
      buffer, then goes out hard-split; a shorter token flushes a non-empty
      buffer only if it would not fit beside it. */
  function Pack(tokens: seq<seq<char>>, buf: seq<char>, L: nat): (r: seq<seq<char>>)
    requires L > 0 && |buf| <= L
    ensures ChunksFit(r, L)
    decreases |tokens|
  {
    if tokens == [] then Flush(buf)
    else
      var t := tokens[0];
      if |t| > L then
        var rest := Pack(tokens[1..], [], L);
        SendBoth(Flush(buf), HardSplit(t, L), L);
        SendBoth(Flush(buf) + HardSplit(t, L), rest, L);
        Flush(buf) + HardSplit(t, L) + rest
      else if |buf| + |t| > L && buf != [] then
        var rest := Pack(tokens[1..], t, L);
        SendBoth([buf], rest, L);
        [buf] + rest
      else
        Pack(tokens[1..], buf + t, L)
  }

  /** `Pack` loses nothing: its chunks concatenate to the buffer followed by
      the tokens. */
  lemma {:induction false} PackConcat(tokens: seq<seq<char>>, buf: seq<char>, L: nat)
    requires L > 0 && |buf| <= L
    ensures Flatten(Pack(tokens, buf, L)) == buf + Flatten(tokens)
    decreases |tokens|
  {
    if tokens != [] {
      var t := tokens[0];
      if |t| > L {
        PackConcat(tokens[1..], [], L);
        PackConcatLong(tokens, buf, L);
      } else if |buf| + |t| > L && buf != [] {
        PackConcat(tokens[1..], t, L);
        PackConcatFlush(tokens, buf, L);
      } else {
        PackConcat(tokens[1..], buf + t, L);
        assert Flatten(tokens) == t + Flatten(tokens[1..]);
      }
    }
  }

  /** A long token: the buffer, then the token's pieces, then the rest. */
  lemma PackConcatLong(tokens: seq<seq<char>>, buf: seq<char>, L: nat)
    requires L > 0 && |buf| <= L && tokens != [] && |tokens[0]| > L
    requires Flatten(Pack(tokens[1..], [], L)) == Flatten(tokens[1..])
    ensures Flatten(Pack(tokens, buf, L)) == buf + Flatten(tokens)
  {
    UnfoldPackLong(tokens, buf, L);
    assert Flatten(tokens) == tokens[0] + Flatten(tokens[1..]);
    FlattenChunksThenRest(Pack(tokens, buf, L), buf, HardSplit(tokens[0], L),
      Pack(tokens[1..], [], L), Flatten(tokens), Flatten(tokens[1..]));
  }

  /** The same step with the chunks and texts named. */
  lemma FlattenChunksThenRest(cs: seq<seq<char>>, buf: seq<char>, ps: seq<seq<char>>,
                              rest: seq<seq<char>>, text: seq<char>, restText: seq<char>)
    requires cs == Flush(buf) + ps + rest
    requires text == Flatten(ps) + restText
    requires Flatten(rest) == restText
    ensures Flatten(cs) == buf + text
  {
    FlattenAppend(Flush(buf), ps);
    FlattenSplit(cs, Flush(buf) + ps, rest, buf, Flatten(ps), restText);
  }

  lemma UnfoldPackLong(tokens: seq<seq<char>>, buf: seq<char>, L: nat)
    requires L > 0 && |buf| <= L && tokens != [] && |tokens[0]| > L
    ensures Pack(tokens, buf, L) == Flush(buf) + HardSplit(tokens[0], L) + Pack(tokens[1..], [], L)
  {
  }

  /** A token that does not fit beside a non-empty buffer: the buffer is
      sent and the token starts the next one. */
  lemma PackConcatFlush(tokens: seq<seq<char>>, buf: seq<char>, L: nat)
    requires L > 0 && |buf| <= L && tokens != [] && |tokens[0]| <= L
    requires |buf| + |tokens[0]| > L && buf != []
    requires Flatten(Pack(tokens[1..], tokens[0], L)) == tokens[0] + Flatten(tokens[1..])
    ensures Flatten(Pack(tokens, buf, L)) == buf + Flatten(tokens)
  {
    var t := tokens[0];
    var rest := Pack(tokens[1..], t, L);
    assert Pack(tokens, buf, L) == [buf] + rest;
    assert Flatten([buf] + rest) == Flatten([buf]) + Flatten(rest) by {
      SendBoth([buf], rest, L);
    }
    assert Flatten([buf]) == buf + Flatten([]);
    assert Flatten(tokens) == t + Flatten(tokens[1..]);
  }

  /** `bot_split_send` for a limit `L`: a text that fits goes out as it is,
      even when empty; a longer one is word-wrapped. No chunk exceeds the
      limit, the chunks concatenate back to the text, and a text that did
      not fit yields no empty chunk. */
  function SplitSend(text: seq<char>, L: nat): (r: seq<seq<char>>)
    requires L > 0
    ensures |text| <= L ==> r == [text]
    ensures forall i :: 0 <= i < |r| ==> |r[i]| <= L
    ensures Flatten(r) == text
    ensures |text| > L ==> forall i :: 0 <= i < |r| ==> r[i] != []
  {
    if |text| <= L then [text]
    else
      PackConcat(Tokens(text), [], L);
      Pack(Tokens(text), [], L)
  }

  /** `bot_split_send` at Telegram's limit: every chunk passes the length
      assertion of the checked sender. */
  function BotSplitSend(text: seq<char>): (r: seq<seq<char>>)
    ensures forall i :: 0 <= i < |r| ==> |r[i]| <= MaxMessageLength
    ensures Flatten(r) == text
  {
    SplitSend(text, MaxMessageLength)
  }

  // ---------------------------------------------------------------------
  // A reference view of `Pack`: which tokens make up each chunk

  /** An atom of the chunking: a whole token that fits the limit, or one piece
      of the hard split of a token that does not. */
  datatype Atom = Whole(text: seq<char>) | Piece(text: seq<char>)

  /** The atoms of a token sequence, in order. */
  function Atoms(tokens: seq<seq<char>>, L: nat): seq<Atom>
    requires L > 0
  {
    if tokens == [] then []
    else if |tokens[0]| > L then PieceAtoms(HardSplit(tokens[0], L)) + Atoms(tokens[1..], L)
    else [Whole(tokens[0])] + Atoms(tokens[1..], L)
  }

  function PieceAtoms(ps: seq<seq<char>>): (r: seq<Atom>)
    ensures |r| == |ps|
    ensures forall i :: 0 <= i < |ps| ==> r[i] == Piece(ps[i])
  {
    if ps == [] then [] else [Piece(ps[0])] + PieceAtoms(ps[1..])
  }

  /** Each piece of a hard split in a group of its own. */
  function PieceGroups(ps: seq<seq<char>>): (r: seq<seq<Atom>>)
    ensures |r| == |ps|
    ensures forall i :: 0 <= i < |ps| ==> r[i] == [Piece(ps[i])]
  {
    if ps == [] then [] else [[Piece(ps[0])]] + PieceGroups(ps[1..])
  }

  /** The text a group of atoms stands for. */
  function Render(g: seq<Atom>): seq<char>
  {
    if g == [] then [] else g[0].text + Render(g[1..])
  }

  function RenderAll(gs: seq<seq<Atom>>): (r: seq<seq<char>>)
    ensures |r| == |gs|
    ensures forall i :: 0 <= i < |gs| ==> r[i] == Render(gs[i])
  {
    if gs == [] then [] else [Render(gs[0])] + RenderAll(gs[1..])
  }

  predicate AllWhole(g: seq<Atom>)
  {
    forall i :: 0 <= i < |g| ==> g[i].Whole?
  }

  predicate NonEmptyAtoms(g: seq<Atom>)
  {
    forall i :: 0 <= i < |g| ==> g[i].text != []
  }

  /** A group is a run of whole tokens that fits the limit, or a single
      hard-split piece. */
  predicate WellFormedGroup(g: seq<Atom>, L: nat)
  {
    && g != []
    && ((AllWhole(g) && |Render(g)| <= L) || (|g| == 1 && g[0].Piece? && 0 < |g[0].text| <= L))
  }

  /** Between two runs of whole tokens, the later run's first token would
      not have fitted beside the earlier run. */
  predicate Greedy(gs: seq<seq<Atom>>, L: nat)
  {
    forall i :: 0 <= i < |gs| - 1 && AllWhole(gs[i]) && AllWhole(gs[i + 1]) && gs[i + 1] != [] ==>
      |Render(gs[i])| + |gs[i + 1][0].text| > L
  }

  function FlushGroup(b: seq<Atom>): seq<seq<Atom>>
  {
    if b == [] then [] else [b]
  }

  /** `Pack` again, but keeping the atoms each chunk is made of; `b` holds the
      tokens in the buffer. */
  function PackGroups(tokens: seq<seq<char>>, b: seq<Atom>, L: nat): seq<seq<Atom>>
    requires L > 0
    decreases |tokens|
  {
    if tokens == [] then FlushGroup(b)
    else
      var t := tokens[0];
      if |t| > L then FlushGroup(b) + PieceGroups(HardSplit(t, L)) + PackGroups(tokens[1..], [], L)
      else if |Render(b)| + |t| > L && b != [] then [b] + PackGroups(tokens[1..], [Whole(t)], L)
      else PackGroups(tokens[1..], b + [Whole(t)], L)
  }

  lemma {:induction false} RenderAppend(a: seq<Atom>, b: seq<Atom>)
    ensures Render(a + b) == Render(a) + Render(b)
    decreases |a|
  {
    if a != [] {
      assert (a + b)[0] == a[0];
      assert (a + b)[1..] == a[1..] + b;
      assert Render(a + b) == a[0].text + Render(a[1..] + b);
      RenderAppend(a[1..], b);
    } else {
      assert a + b == b;
    }
  }

  lemma {:induction false} RenderEmpty(g: seq<Atom>)
    requires NonEmptyAtoms(g)
    ensures Render(g) == [] <==> g == []
  {
  }

  lemma RenderAllAppend(a: seq<seq<Atom>>, b: seq<seq<Atom>>)
    ensures RenderAll(a + b) == RenderAll(a) + RenderAll(b)
  {
    assert RenderAll(a + b) == RenderAll(a) + RenderAll(b) by {
      var l, r := RenderAll(a + b), RenderAll(a) + RenderAll(b);
      assert |l| == |r|;
      forall i | 0 <= i < |l| ensures l[i] == r[i] {
        if i < |a| { assert (a + b)[i] == a[i]; } else { assert (a + b)[i] == b[i - |a|]; }
      }
    }
  }

  lemma RenderPieceGroups(ps: seq<seq<char>>)
    ensures RenderAll(PieceGroups(ps)) == ps
  {
    var r := RenderAll(PieceGroups(ps));
    forall i | 0 <= i < |ps| ensures r[i] == ps[i] {
      assert Render([Piece(ps[i])]) == ps[i] + Render([]);
    }
  }

  lemma {:induction false} FlattenPieceGroups(ps: seq<seq<char>>)
    ensures Flatten(PieceGroups(ps)) == PieceAtoms(ps)
    decreases |ps|
  {
    if ps != [] {
      assert PieceGroups(ps)[1..] == PieceGroups(ps[1..]);
      FlattenPieceGroups(ps[1..]);
    }
  }

  /** `Pack` sends exactly the renderings of the groups `PackGroups` forms. */
  lemma {:induction false} PackRendersGroups(tokens: seq<seq<char>>, b: seq<Atom>, L: nat)
    requires L > 0 && |Render(b)| <= L
    requires NonEmptyAtoms(b)
    requires forall i :: 0 <= i < |tokens| ==> tokens[i] != []
    ensures Pack(tokens, Render(b), L) == RenderAll(PackGroups(tokens, b, L))
    decreases |tokens|
  {
    RenderEmpty(b);
    if tokens != [] {
      var t := tokens[0];
      if |t| > L {
        assert Render([]) == [];
        PackRendersGroups(tokens[1..], [], L);
        RenderAllAppend(FlushGroup(b) + PieceGroups(HardSplit(t, L)), PackGroups(tokens[1..], [], L));
        RenderAllAppend(FlushGroup(b), PieceGroups(HardSplit(t, L)));
        RenderPieceGroups(HardSplit(t, L));
      } else if |Render(b)| + |t| > L && b != [] {
        assert Render([Whole(t)]) == t + Render([]);
        PackRendersGroups(tokens[1..], [Whole(t)], L);
        RenderAllAppend([b], PackGroups(tokens[1..], [Whole(t)], L));
        assert Pack(tokens, Render(b), L) == [Render(b)] + Pack(tokens[1..], t, L);
        assert PackGroups(tokens, b, L) == [b] + PackGroups(tokens[1..], [Whole(t)], L);
        assert RenderAll([b]) == [Render(b)] + RenderAll([]);
        assert Render([Whole(t)]) == t;
        assert Pack(tokens[1..], t, L) == RenderAll(PackGroups(tokens[1..], [Whole(t)], L));
        assert RenderAll([b]) == [Render(b)];
      } else {
        RenderAppend(b, [Whole(t)]);
        assert Render([Whole(t)]) == t + Render([]);
        assert Render(b + [Whole(t)]) == Render(b) + t;
        assert NonEmptyAtoms(b + [Whole(t)]) by {
          forall i | 0 <= i < |b| + 1 ensures (b + [Whole(t)])[i].text != [] {
            if i < |b| { assert (b + [Whole(t)])[i] == b[i]; }
          }
        }
        PackRendersGroups(tokens[1..], b + [Whole(t)], L);
        assert Pack(tokens, Render(b), L) == Pack(tokens[1..], Render(b) + t, L);
      }
    }
  }

  lemma FlattenFlushedPieces(b: seq<Atom>, ps: seq<seq<char>>)
    ensures Flatten(FlushGroup(b) + PieceGroups(ps)) == b + PieceAtoms(ps)
  {
    FlattenAppend(FlushGroup(b), PieceGroups(ps));
    FlattenPieceGroups(ps);
    if b != [] { assert Flatten([b]) == b + Flatten([]); }
  }

  lemma UnfoldLongToken(tokens: seq<seq<char>>, b: seq<Atom>, L: nat)
    requires L > 0 && tokens != [] && |tokens[0]| > L
    ensures PackGroups(tokens, b, L)
         == FlushGroup(b) + PieceGroups(HardSplit(tokens[0], L)) + PackGroups(tokens[1..], [], L)
    ensures Atoms(tokens, L) == PieceAtoms(HardSplit(tokens[0], L)) + Atoms(tokens[1..], L)
  {
  }

  lemma {:induction false} FlattenLongTokenStep(tokens: seq<seq<char>>, b: seq<Atom>, L: nat)
    requires L > 0 && tokens != [] && |tokens[0]| > L
    requires Flatten(PackGroups(tokens[1..], [], L)) == Atoms(tokens[1..], L)
    ensures Flatten(PackGroups(tokens, b, L)) == b + Atoms(tokens, L)
  {
    UnfoldLongToken(tokens, b, L);
    FlattenPiecesThenRest(PackGroups(tokens, b, L), b, HardSplit(tokens[0], L),
      PackGroups(tokens[1..], [], L), Atoms(tokens, L), Atoms(tokens[1..], L));
  }

  /** The same step with the groups and atoms named: whatever follows the
      pieces flattens to the atoms that follow them. */
  lemma FlattenPiecesThenRest(gs: seq<seq<Atom>>, b: seq<Atom>, ps: seq<seq<char>>,
                              rest: seq<seq<Atom>>, atoms: seq<Atom>, restAtoms: seq<Atom>)
    requires gs == FlushGroup(b) + PieceGroups(ps) + rest
    requires atoms == PieceAtoms(ps) + restAtoms
    requires Flatten(rest) == restAtoms
    ensures Flatten(gs) == b + atoms
  {
    FlattenFlushedPieces(b, ps);
    FlattenSplit(gs, FlushGroup(b) + PieceGroups(ps), rest, b, PieceAtoms(ps), restAtoms);
  }

  lemma FlattenFlushStep(tokens: seq<seq<char>>, b: seq<Atom>, L: nat)
    requires L > 0 && tokens != [] && |tokens[0]| <= L && |Render(b)| + |tokens[0]| > L && b != []
    requires Flatten(PackGroups(tokens[1..], [Whole(tokens[0])], L)) == [Whole(tokens[0])] + Atoms(tokens[1..], L)
    ensures Flatten(PackGroups(tokens, b, L)) == b + Atoms(tokens, L)
  {
    var rest := PackGroups(tokens[1..], [Whole(tokens[0])], L);
    assert PackGroups(tokens, b, L) == [b] + rest;
    FlattenAppend([b], rest);
    assert Flatten([b]) == b + Flatten([]);
  }

  /** The groups, flattened, are the buffered atoms followed by the atoms of
      the tokens, in order: nothing is lost, duplicated or reordered. */
  lemma {:induction false} PackGroupsFlatten(tokens: seq<seq<char>>, b: seq<Atom>, L: nat)
    requires L > 0
    ensures Flatten(PackGroups(tokens, b, L)) == b + Atoms(tokens, L)
    decreases |tokens|
  {
    if tokens == [] {
      assert Flatten([b]) == b + Flatten([]);
    } else {
      var t := tokens[0];
      if |t| > L {
        PackGroupsFlatten(tokens[1..], [], L);
        FlattenLongTokenStep(tokens, b, L);
      } else if |Render(b)| + |t| > L && b != [] {
        PackGroupsFlatten(tokens[1..], [Whole(t)], L);
        FlattenFlushStep(tokens, b, L);
      } else {
        PackGroupsFlatten(tokens[1..], b + [Whole(t)], L);
        assert Flatten(PackGroups(tokens, b, L)) == b + ([Whole(t)] + Atoms(tokens[1..], L));
      }
    }
  }

  lemma GreedyAppend(a: seq<seq<Atom>>, c: seq<seq<Atom>>, L: nat)
    requires Greedy(a, L) && Greedy(c, L)
    requires a != [] && c != [] && AllWhole(a[|a| - 1]) && AllWhole(c[0]) && c[0] != [] ==>
      |Render(a[|a| - 1])| + |c[0][0].text| > L
    ensures Greedy(a + c, L)
  {
    var g := a + c;
    forall i | 0 <= i < |g| - 1 && AllWhole(g[i]) && AllWhole(g[i + 1]) && g[i + 1] != []
      ensures |Render(g[i])| + |g[i + 1][0].text| > L
    {
      if i + 1 < |a| {
        assert g[i] == a[i] && g[i + 1] == a[i + 1];
      } else if i + 1 == |a| {
        assert g[i] == a[|a| - 1] && g[i + 1] == c[0];
      } else {
        assert g[i] == c[i - |a|] && g[i + 1] == c[i - |a| + 1];
      }
    }
  }

  lemma PieceGroupsShape(ps: seq<seq<char>>, L: nat)
    requires forall i :: 0 <= i < |ps| ==> 0 < |ps[i]| <= L
    ensures Greedy(PieceGroups(ps), L)
    ensures forall i :: 0 <= i < |ps| ==> WellFormedGroup(PieceGroups(ps)[i], L) && !AllWhole(PieceGroups(ps)[i])
  {
    var g := PieceGroups(ps);
    forall i | 0 <= i < |ps| ensures WellFormedGroup(g[i], L) && !AllWhole(g[i]) {
      assert g[i][0] == Piece(ps[i]);
    }
  }

  lemma WellFormedAppend(a: seq<seq<Atom>>, c: seq<seq<Atom>>, L: nat)
    requires forall i :: 0 <= i < |a| ==> WellFormedGroup(a[i], L)
    requires forall i :: 0 <= i < |c| ==> WellFormedGroup(c[i], L)
    ensures forall i :: 0 <= i < |a + c| ==> WellFormedGroup((a + c)[i], L)
  {
    forall i | 0 <= i < |a + c| ensures WellFormedGroup((a + c)[i], L) {
      if i < |a| { assert (a + c)[i] == a[i]; } else { assert (a + c)[i] == c[i - |a|]; }
    }
  }

  /** Every group is well formed, the grouping is greedy, and the group
      being built (`b`) heads the groups. */
  predicate Shaped(gs: seq<seq<Atom>>, b: seq<Atom>, L: nat)
  {
    && (forall i :: 0 <= i < |gs| ==> WellFormedGroup(gs[i], L))
    && Greedy(gs, L)
    && (b != [] ==> gs != [] && |gs[0]| >= |b| && gs[0][..|b|] == b)
  }

  /** `PackGroups` forms well-formed groups greedily, starting from the
      group being built. */
  lemma {:induction false} PackGroupsShape(tokens: seq<seq<char>>, b: seq<Atom>, L: nat)
    requires L > 0 && AllWhole(b) && |Render(b)| <= L
    ensures Shaped(PackGroups(tokens, b, L), b, L)
    decreases |tokens|
  {
    if tokens == [] {
      assert b[..|b|] == b;
    } else {
      var t := tokens[0];
      RenderSingle(t);
      if |t| > L {
        PackGroupsShape(tokens[1..], [], L);
        ShapeLongStep(tokens, b, L);
      } else if |Render(b)| + |t| > L && b != [] {
        PackGroupsShape(tokens[1..], [Whole(t)], L);
        ShapeFlushStep(tokens, b, L);
      } else {
        RenderAppend(b, [Whole(t)]);
        PackGroupsShape(tokens[1..], b + [Whole(t)], L);
        ShapeExtendStep(tokens, b, L);
      }
    }
  }

  lemma RenderSingle(t: seq<char>)
    ensures Render([Whole(t)]) == t
  {
    assert Render([Whole(t)]) == t + Render([]);
  }

  /** A long token: the flushed buffer and the pieces come before the rest. */
  lemma ShapeLongStep(tokens: seq<seq<char>>, b: seq<Atom>, L: nat)
    requires L > 0 && AllWhole(b) && |Render(b)| <= L && tokens != [] && |tokens[0]| > L
    requires Shaped(PackGroups(tokens[1..], [], L), [], L)
    ensures Shaped(PackGroups(tokens, b, L), b, L)
  {
    var ps := HardSplit(tokens[0], L);
    UnfoldLongToken(tokens, b, L);
    FlushedPiecesShape(b, ps, L);
    ShapeThenRest(PackGroups(tokens, b, L), FlushGroup(b) + PieceGroups(ps), PackGroups(tokens[1..], [], L), b, L);
  }

  /** The flushed buffer followed by the pieces: well formed, greedy, headed
      by the buffer, and ending in a piece. */
  lemma FlushedPiecesShape(b: seq<Atom>, ps: seq<seq<char>>, L: nat)
    requires AllWhole(b) && |Render(b)| <= L && ps != [] && ChunksFit(ps, L)
    ensures var head := FlushGroup(b) + PieceGroups(ps);
      && (forall i :: 0 <= i < |head| ==> WellFormedGroup(head[i], L))
      && Greedy(head, L)
      && head != [] && !AllWhole(head[|head| - 1])
      && (b != [] ==> head[0] == b)
  {
    var head := FlushGroup(b) + PieceGroups(ps);
    PieceGroupsShape(ps, L);
    GreedyAppend(FlushGroup(b), PieceGroups(ps), L);
    WellFormedAppend(FlushGroup(b), PieceGroups(ps), L);
    assert head[|head| - 1] == PieceGroups(ps)[|ps| - 1];
  }

  /** Groups ending in a piece, then a shaped rest. */
  lemma ShapeThenRest(gs: seq<seq<Atom>>, head: seq<seq<Atom>>, rest: seq<seq<Atom>>, b: seq<Atom>, L: nat)
    requires gs == head + rest
    requires forall i :: 0 <= i < |head| ==> WellFormedGroup(head[i], L)
    requires Greedy(head, L)
    requires head != [] && !AllWhole(head[|head| - 1])
    requires b != [] ==> head[0] == b
    requires Shaped(rest, [], L)
    ensures Shaped(gs, b, L)
  {
    GreedyAppend(head, rest, L);
    WellFormedAppend(head, rest, L);
    ShapedHead(gs, head, rest, b, L);
  }

  /** The head of a concatenation, when it starts with the buffer. */
  lemma ShapedHead(gs: seq<seq<Atom>>, head: seq<seq<Atom>>, rest: seq<seq<Atom>>, b: seq<Atom>, L: nat)
    requires gs == head + rest
    requires forall i :: 0 <= i < |gs| ==> WellFormedGroup(gs[i], L)
    requires Greedy(gs, L)
    requires b != [] ==> head != [] && head[0] == b
    ensures Shaped(gs, b, L)
  {
    if b != [] {
      assert gs[0] == head[0];
      assert b[..|b|] == b;
    }
  }

  /** A token that does not fit beside a non-empty buffer. */
  lemma ShapeFlushStep(tokens: seq<seq<char>>, b: seq<Atom>, L: nat)
    requires L > 0 && AllWhole(b) && |Render(b)| <= L && tokens != [] && |tokens[0]| <= L
    requires |Render(b)| + |tokens[0]| > L && b != []
    requires Shaped(PackGroups(tokens[1..], [Whole(tokens[0])], L), [Whole(tokens[0])], L)
    ensures Shaped(PackGroups(tokens, b, L), b, L)
  {
    var t := tokens[0];
    var rest := PackGroups(tokens[1..], [Whole(t)], L);
    assert PackGroups(tokens, b, L) == [b] + rest;
    assert rest[0][0] == Whole(t) by {
      assert rest[0][..1] == [Whole(t)];
    }
    GreedyAppend([b], rest, L);
    WellFormedAppend([b], rest, L);
    ShapedHead(PackGroups(tokens, b, L), [b], rest, b, L);
  }

  /** A token that fits beside the buffer joins it. */
  lemma ShapeExtendStep(tokens: seq<seq<char>>, b: seq<Atom>, L: nat)
    requires L > 0 && AllWhole(b) && |Render(b)| <= L && tokens != [] && |tokens[0]| <= L
    requires !(|Render(b)| + |tokens[0]| > L && b != [])
    requires Shaped(PackGroups(tokens[1..], b + [Whole(tokens[0])], L), b + [Whole(tokens[0])], L)
    ensures Shaped(PackGroups(tokens, b, L), b, L)
  {
    var b2 := b + [Whole(tokens[0])];
    var gs := PackGroups(tokens[1..], b2, L);
    assert PackGroups(tokens, b, L) == gs;
    if b != [] {
      assert gs[0][..|b|] == gs[0][..|b2|][..|b|];
      assert b2[..|b|] == b;
    }
  }

  /** The chunks of an over-long text, grouped: each chunk renders one group;
      the groups, flattened, are the text's atoms in order, so a token that
      fits the limit is never split across chunks and a longer one is cut
      into pieces of exactly `L` characters but the last; each piece is a
      chunk of its own, so the last piece is not merged with later tokens;
      and a run of whole tokens ends only where the next token would not
      have fitted. */
  lemma SplitSendGroups(text: seq<char>, L: nat)
    requires L > 0 && |text| > L
    ensures var gs := PackGroups(Tokens(text), [], L);
      && SplitSend(text, L) == RenderAll(gs)
      && Flatten(gs) == Atoms(Tokens(text), L)
      && Shaped(gs, [], L)
  {
    assert Render([]) == [];
    PackRendersGroups(Tokens(text), [], L);
    PackGroupsFlatten(Tokens(text), [], L);
    PackGroupsShape(Tokens(text), [], L);
  }

  // ---------------------------------------------------------------------
  // The rich-text splitter (`bot_split_send_formatted`)

  /** What the formatted splitter delivers: all its chunks, or the chunks sent
      before it met a line longer than the limit and the process panicked. */
  datatype Delivery = Sent(chunks: seq<seq<char>>) | Fatal(sentBefore: seq<seq<char>>)
  {
    function Delivered(): seq<seq<char>>
    {
      match this
      case Sent(cs) => cs
      case Fatal(cs) => cs
    }
  }

  function SendFirst(chunk: seq<char>, d: Delivery): (r: Delivery)
    ensures r.Fatal? == d.Fatal? && r.Delivered() == [chunk] + d.Delivered()
  {
    match d
    case Sent(cs) => Sent([chunk] + cs)
    case Fatal(cs) => Fatal([chunk] + cs)
  }

  predicate HasLongLine(lines: seq<seq<char>>, L: nat)
  {
    exists i :: 0 <= i < |lines| && |lines[i]| > L
  }

  /** The chunks sent from the current point of the line loop on, given the
      remaining lines and the buffer. A line joins the buffer after a `'\n'`
      when the buffer is non-empty; a line that would not fit flushes the
      buffer first. An empty line met with an empty buffer leaves it empty. */
  function PackLines(lines: seq<seq<char>>, buf: seq<char>, L: nat): (r: Delivery)
    requires L > 0 && |buf| <= L
    ensures r.Fatal? <==> HasLongLine(lines, L)
    ensures forall i :: 0 <= i < |r.Delivered()| ==> 0 < |r.Delivered()[i]| <= L
    decreases |lines|
  {
    if lines == [] then Sent(Flush(buf))
    else
      var line := lines[0];
      assert HasLongLine(lines, L) <==> |line| > L || HasLongLine(lines[1..], L) by {
        if HasLongLine(lines[1..], L) {
          var i :| 0 <= i < |lines[1..]| && |lines[1..][i]| > L;
          assert lines[i + 1] == lines[1..][i];
        }
        if HasLongLine(lines, L) && |line| <= L {
          var i :| 0 <= i < |lines| && |lines[i]| > L;
          assert lines[1..][i - 1] == lines[i];
        }
      }
      if |line| > L then Fatal([])
      else if |buf| + |line| + (if buf == [] then 0 else 1) > L then
        SendFirst(buf, PackLines(lines[1..], line, L))
      else
        PackLines(lines[1..], if buf == [] then line else buf + "\n" + line, L)
  }

  /** `bot_split_send_formatted` for a limit `L`: a text that fits goes out
      as it is, even when empty; a longer one is packed line by line, and is
      fatal exactly when one of its lines exceeds the limit. Every chunk
      delivered, before a fatal line or not, is non-empty and within the
      limit. */
  function SplitSendFormatted(text: seq<char>, L: nat): (r: Delivery)
    requires L > 0
    ensures |text| <= L ==> r == Sent([text])
    ensures r.Fatal? <==> |text| > L && HasLongLine(Split(text, '\n'), L)
    ensures forall i :: 0 <= i < |r.Delivered()| ==> |r.Delivered()[i]| <= L
    ensures |text| > L ==> forall i :: 0 <= i < |r.Delivered()| ==> r.Delivered()[i] != []
  {
    if |text| <= L then Sent([text]) else PackLines(Split(text, '\n'), [], L)
  }

  /** `bot_split_send_formatted` at Telegram's limit. */
  function BotSplitSendFormatted(text: seq<char>): (r: Delivery)
    ensures forall i :: 0 <= i < |r.Delivered()| ==> |r.Delivered()[i]| <= MaxMessageLength
    ensures r.Fatal? ==> HasLongLine(Split(text, '\n'), MaxMessageLength)
  {
    SplitSendFormatted(text, MaxMessageLength)
  }

  // ---------------------------------------------------------------------
  // A reference view of `PackLines`: which lines make up each chunk

  function JoinLines(g: seq<seq<char>>): seq<char>
  {
    Join(g, "\n")
  }

  /** The lines of a buffer: none, or starting with a non-empty line. */
  predicate IsLineBuffer(b: seq<seq<char>>)
  {
    b == [] || b[0] != []
  }

  /** The buffer a line opens when it arrives at an empty buffer: an empty
      line leaves the buffer empty. */
  function OpenWith(line: seq<char>): seq<seq<char>>
  {
    if line == [] then [] else [line]
  }

  /** `PackLines` again, keeping the lines each chunk is made of; `b` holds
      the lines in the buffer. */
  function LineGroups(lines: seq<seq<char>>, b: seq<seq<char>>, L: nat): seq<seq<seq<char>>>
    decreases |lines|
  {
    if lines == [] then (if b == [] then [] else [b])
    else
      var line := lines[0];
      if Overflows(b, line, L) then [b] + LineGroups(lines[1..], OpenWith(line), L)
      else LineGroups(lines[1..], Extend(b, line), L)
  }

  /** `kept` is `src` with some empty lines deleted, and nothing else
      changed. */
  predicate DropsOnlyEmptyLines(src: seq<seq<char>>, kept: seq<seq<char>>)
    decreases |src|
  {
    if src == [] then kept == []
    else
      || (kept != [] && kept[0] == src[0] && DropsOnlyEmptyLines(src[1..], kept[1..]))
      || (src[0] == [] && DropsOnlyEmptyLines(src[1..], kept))
  }

  lemma {:induction false} DropsNothing(x: seq<seq<char>>)
    ensures DropsOnlyEmptyLines(x, x)
    decreases |x|
  {
    if x != [] {
      DropsNothing(x[1..]);
    }
  }

  lemma {:induction false} DropsUnderPrefix(p: seq<seq<char>>, x: seq<seq<char>>, y: seq<seq<char>>)
    requires DropsOnlyEmptyLines(x, y)
    ensures DropsOnlyEmptyLines(p + x, p + y)
    decreases |p|
  {
    if p == [] {
      assert p + x == x && p + y == y;
    } else {
      DropsUnderPrefix(p[1..], x, y);
      assert (p + x)[1..] == p[1..] + x;
      assert (p + y)[1..] == p[1..] + y;
    }
  }

  /** Without empty lines there is nothing to drop. */
  lemma {:induction false} DropsFromNoEmptyLines(x: seq<seq<char>>, y: seq<seq<char>>)
    requires DropsOnlyEmptyLines(x, y)
    requires forall i :: 0 <= i < |x| ==> x[i] != []
    ensures y == x
    decreases |x|
  {
    if x != [] {
      DropsFromNoEmptyLines(x[1..], y[1..]);
    }
  }

  lemma JoinLinesSingle(line: seq<char>)
    ensures JoinLines(OpenWith(line)) == line
    ensures JoinLines([line]) == line
  {
  }

  lemma JoinLinesExtend(b: seq<seq<char>>, line: seq<char>)
    requires b != []
    ensures JoinLines(b + [line]) == JoinLines(b) + "\n" + line
  {
    JoinAppend(b, [line], "\n");
  }

  lemma JoinLinesEmpty(b: seq<seq<char>>)
    requires IsLineBuffer(b)
    ensures JoinLines(b) == [] <==> b == []
  {
    if b != [] {
      JoinHead(b, "\n");
    }
  }

  /** The buffer after line `line` when it does not force a flush. */
  function Extend(b: seq<seq<char>>, line: seq<char>): seq<seq<char>>
  {
    if b == [] then OpenWith(line) else b + [line]
  }

  lemma ExtendJoin(b: seq<seq<char>>, line: seq<char>)
    requires IsLineBuffer(b)
    ensures IsLineBuffer(Extend(b, line))
    ensures JoinLines(Extend(b, line)) == if b == [] then line else JoinLines(b) + "\n" + line
  {
    JoinLinesSingle(line);
    if b != [] {
      JoinLinesExtend(b, line);
    }
  }

  lemma HasLongLineCons(lines: seq<seq<char>>, L: nat)
    requires lines != []
    ensures HasLongLine(lines, L) <==> |lines[0]| > L || HasLongLine(lines[1..], L)
  {
    if HasLongLine(lines, L) && |lines[0]| <= L {
      var i :| 0 <= i < |lines| && |lines[i]| > L;
      assert lines[1..][i - 1] == lines[i];
    }
    if HasLongLine(lines[1..], L) {
      var i :| 0 <= i < |lines[1..]| && |lines[1..][i]| > L;
      assert lines[i + 1] == lines[1..][i];
    }
  }

  /** `PackLines` sends exactly the joined groups `LineGroups` forms. */
  lemma {:induction false} PackLinesRendersGroups(lines: seq<seq<char>>, b: seq<seq<char>>, L: nat)
    requires L > 0 && IsLineBuffer(b) && |JoinLines(b)| <= L
    requires !HasLongLine(lines, L)
    ensures PackLines(lines, JoinLines(b), L) == Sent(JoinEach(LineGroups(lines, b, L), "\n"))
    decreases |lines|
  {
    JoinLinesEmpty(b);
    if lines == [] {
      assert JoinEach([b], "\n") == [JoinLines(b)];
    } else {
      var line := lines[0];
      assert |line| <= L;
      HasLongLineCons(lines, L);
      JoinLinesSingle(line);
      if |JoinLines(b)| + |line| + (if b == [] then 0 else 1) > L {
        PackLinesRendersGroups(lines[1..], OpenWith(line), L);
        var rest := LineGroups(lines[1..], OpenWith(line), L);
        assert JoinEach([b] + rest, "\n") == [JoinLines(b)] + JoinEach(rest, "\n");
      } else {
        ExtendJoin(b, line);
        PackLinesRendersGroups(lines[1..], Extend(b, line), L);
      }
    }
  }

  /** Whether line `line` forces the buffer `b` out: it would not fit after
      a newline. */
  predicate Overflows(b: seq<seq<char>>, line: seq<char>, L: nat)
  {
    |JoinLines(b)| + |line| + (if b == [] then 0 else 1) > L
  }

  /** The groups, flattened, are the buffered lines followed by the remaining
      lines, less some empty ones. */
  lemma {:induction false} LineGroupsKeepLines(lines: seq<seq<char>>, b: seq<seq<char>>, L: nat)
    ensures DropsOnlyEmptyLines(b + lines, Flatten(LineGroups(lines, b, L)))
    decreases |lines|
  {
    if lines == [] {
      assert b + lines == b;
      DropsNothing(b);
      assert Flatten([b]) == b + Flatten([]);
    } else if Overflows(b, lines[0], L) {
      LineGroupsKeepLines(lines[1..], OpenWith(lines[0]), L);
      KeepLinesFlush(lines, b, L);
    } else {
      LineGroupsKeepLines(lines[1..], Extend(b, lines[0]), L);
      KeepLinesExtend(lines, b, L);
    }
  }

  /** A line opening a buffer is kept, or dropped when it is empty. */
  lemma DropsOpen(line: seq<char>, rest: seq<seq<char>>, kept: seq<seq<char>>)
    requires DropsOnlyEmptyLines(OpenWith(line) + rest, kept)
    ensures DropsOnlyEmptyLines([line] + rest, kept)
  {
    if line != [] {
      assert OpenWith(line) + rest == [line] + rest;
    } else {
      assert OpenWith(line) + rest == rest;
      assert ([line] + rest)[1..] == rest;
    }
  }

  /** A line that does not fit: the buffer becomes a group of its own. */
  lemma KeepLinesFlush(lines: seq<seq<char>>, b: seq<seq<char>>, L: nat)
    requires lines != [] && Overflows(b, lines[0], L)
    requires DropsOnlyEmptyLines(OpenWith(lines[0]) + lines[1..],
                                 Flatten(LineGroups(lines[1..], OpenWith(lines[0]), L)))
    ensures DropsOnlyEmptyLines(b + lines, Flatten(LineGroups(lines, b, L)))
  {
    var tail := LineGroups(lines[1..], OpenWith(lines[0]), L);
    assert LineGroups(lines, b, L) == [b] + tail;
    DropsOpen(lines[0], lines[1..], Flatten(tail));
    ConsTail(lines);
    FlattenCons(b, tail);
    DropsUnderPrefix(b, lines, Flatten(tail));
  }

  /** A line that fits joins the buffer. */
  lemma KeepLinesExtend(lines: seq<seq<char>>, b: seq<seq<char>>, L: nat)
    requires lines != [] && !Overflows(b, lines[0], L)
    requires DropsOnlyEmptyLines(Extend(b, lines[0]) + lines[1..],
                                 Flatten(LineGroups(lines[1..], Extend(b, lines[0]), L)))
    ensures DropsOnlyEmptyLines(b + lines, Flatten(LineGroups(lines, b, L)))
  {
    var kept := Flatten(LineGroups(lines[1..], Extend(b, lines[0]), L));
    assert LineGroups(lines, b, L) == LineGroups(lines[1..], Extend(b, lines[0]), L);
    ConsTail(lines);
    if b == [] {
      DropsOpen(lines[0], lines[1..], kept);
      assert b + lines == lines;
    } else {
      AppendAssoc(b, [lines[0]], lines[1..]);
    }
  }

  /** Between two chunks, the next chunk's first line would not have fitted
      after a newline in the previous one. */
  predicate LineGreedy(gs: seq<seq<seq<char>>>, L: nat)
  {
    forall i :: 0 <= i < |gs| - 1 && gs[i + 1] != [] ==>
      |JoinLines(gs[i])| + 1 + |gs[i + 1][0]| > L
  }

  /** A chunk's lines: non-empty, led by a non-empty line, and fitting the
      limit once joined. */
  predicate WellFormedLineGroup(g: seq<seq<char>>, L: nat)
  {
    g != [] && g[0] != [] && |JoinLines(g)| <= L
  }

  /** Every chunk's lines are well formed, the chunking is greedy, and the
      buffer (`b`) heads the first chunk. */
  predicate LineShaped(gs: seq<seq<seq<char>>>, b: seq<seq<char>>, L: nat)
  {
    && (forall i :: 0 <= i < |gs| ==> WellFormedLineGroup(gs[i], L))
    && LineGreedy(gs, L)
    && (b != [] ==> gs != [] && |gs[0]| >= |b| && gs[0][..|b|] == b)
  }

  lemma {:induction false} LineGroupsShape(lines: seq<seq<char>>, b: seq<seq<char>>, L: nat)
    requires L > 0 && IsLineBuffer(b) && |JoinLines(b)| <= L
    requires !HasLongLine(lines, L)
    ensures LineShaped(LineGroups(lines, b, L), b, L)
    decreases |lines|
  {
    if lines == [] {
      JoinLinesEmpty(b);
      assert b[..|b|] == b;
    } else {
      var line := lines[0];
      HasLongLineCons(lines, L);
      JoinLinesSingle(line);
      if Overflows(b, line, L) {
        LineGroupsShape(lines[1..], OpenWith(line), L);
        LineShapeFlush(lines, b, L);
      } else {
        ExtendJoin(b, line);
        LineGroupsShape(lines[1..], Extend(b, line), L);
        LineShapeExtend(lines, b, L);
      }
    }
  }

  /** A line that does not fit closes the buffer as a chunk. */
  lemma LineShapeFlush(lines: seq<seq<char>>, b: seq<seq<char>>, L: nat)
    requires L > 0 && IsLineBuffer(b) && |JoinLines(b)| <= L
    requires lines != [] && |lines[0]| <= L && Overflows(b, lines[0], L)
    requires LineShaped(LineGroups(lines[1..], OpenWith(lines[0]), L), OpenWith(lines[0]), L)
    ensures LineShaped(LineGroups(lines, b, L), b, L)
  {
    var line := lines[0];
    var rest := LineGroups(lines[1..], OpenWith(line), L);
    var gs := [b] + rest;
    assert LineGroups(lines, b, L) == gs;
    JoinLinesEmpty(b);
    JoinLinesSingle(line);
    assert b != [];
    forall i | 0 <= i < |gs| ensures WellFormedLineGroup(gs[i], L) {
      if i > 0 { assert gs[i] == rest[i - 1]; }
    }
    forall i | 0 <= i < |gs| - 1 && gs[i + 1] != []
      ensures |JoinLines(gs[i])| + 1 + |gs[i + 1][0]| > L
    {
      if i > 0 {
        assert gs[i] == rest[i - 1] && gs[i + 1] == rest[i];
      } else if line != [] {
        assert rest[0][..1] == [line];
        assert gs[1][0] == line;
      }
    }
    assert b[..|b|] == b;
  }

  /** A line that fits extends the buffer, which still heads the first
      chunk. */
  lemma LineShapeExtend(lines: seq<seq<char>>, b: seq<seq<char>>, L: nat)
    requires lines != [] && !Overflows(b, lines[0], L)
    requires LineShaped(LineGroups(lines[1..], Extend(b, lines[0]), L), Extend(b, lines[0]), L)
    ensures LineShaped(LineGroups(lines, b, L), b, L)
  {
    var b2 := Extend(b, lines[0]);
    var gs := LineGroups(lines[1..], b2, L);
    assert LineGroups(lines, b, L) == gs;
    if b != [] {
      assert gs[0][..|b|] == gs[0][..|b2|][..|b|];
      assert b2[..|b|] == b;
    }
  }

  /** The chunks of an over-long text without a fatal line, grouped: each
      chunk is one group of lines joined by `'\n'`; the groups, flattened,
      are the text's lines less some empty ones, so no line is ever split;
      every group starts with a non-empty line; and a chunk ends only where
      the next line would not have fitted. */
  lemma SplitSendFormattedGroups(text: seq<char>, L: nat)
    requires L > 0 && |text| > L && !HasLongLine(Split(text, '\n'), L)
    ensures var gs := LineGroups(Split(text, '\n'), [], L);
      && SplitSendFormatted(text, L) == Sent(JoinEach(gs, "\n"))
      && DropsOnlyEmptyLines(Split(text, '\n'), Flatten(gs))
      && LineShaped(gs, [], L)
  {
    var lines := Split(text, '\n');
    assert JoinLines([]) == [];
    PackLinesRendersGroups(lines, [], L);
    LineGroupsKeepLines(lines, [], L);
    assert [] + lines == lines;
    LineGroupsShape(lines, [], L);
  }

  /** When no line of the text is empty, the formatted splitter is lossless:
      joining its chunks with `'\n'` gives the text back. */
  lemma FormattedRoundTrip(text: seq<char>, L: nat)
    requires L > 0 && !HasLongLine(Split(text, '\n'), L)
    requires forall i :: 0 <= i < |Split(text, '\n')| ==> Split(text, '\n')[i] != []
    ensures SplitSendFormatted(text, L).Sent?
    ensures Join(SplitSendFormatted(text, L).chunks, "\n") == text
  {
    if |text| > L {
      var lines := Split(text, '\n');
      var gs := LineGroups(lines, [], L);
      SplitSendFormattedGroups(text, L);
      DropsFromNoEmptyLines(lines, Flatten(gs));
      JoinFlatten(gs, "\n");
      JoinSplit(text, '\n');
    }
  }

  /** An empty line that arrives when the buffer is full forces a flush and
      is then appended to the emptied buffer, so it is dropped as well: a
      full-length line, an empty line and `c` come out as two chunks that
      join back without the empty line. */
  lemma FormattedDropsEmptyLineAtFullBuffer(L: nat)
    requires L > 0
    ensures var full := seq(L, _ => 'a');
      && SplitSendFormatted(full + "\n\nc", L) == Sent([full, "c"])
      && Join([full, "c"], "\n") != full + "\n\nc"
  {
    var full := seq(L, _ => 'a');
    SplitFullEmptyC(full);
    PackFullEmptyC(full, L);
    assert Join([full, "c"], "\n") == full + "\n" + Join(["c"], "\n");
  }

  /** The lines of a full-length line, an empty line and `c`. */
  lemma SplitFullEmptyC(full: seq<char>)
    requires '\n' !in full
    ensures Split(full + "\n\nc", '\n') == [full, [], "c"]
  {
    assert full + "\n\nc" == full + ['\n'] + ['\n'] + "c";
    SplitTwoSeparators(full, "c", '\n');
  }

  /** Packing a full-length line, an empty line and `c`. */
  lemma PackFullEmptyC(full: seq<char>, L: nat)
    requires L > 0 && |full| == L
    ensures PackLines([full, [], "c"], [], L) == Sent([full, "c"])
  {
    assert [full, [], "c"][1..] == [[], "c"];
    assert PackLines([full, [], "c"], [], L) == PackLines([[], "c"], full, L);
    assert PackLines([[], "c"], full, L) == SendFirst(full, PackLines(["c"], [], L));
    assert PackLines(["c"], [], L) == PackLines([], "c", L);
  }

  /** An empty line met while the buffer is empty is dropped: a leading
      newline before a full-length line does not reach the chat, so the
      chunks no longer join back to the text. */
  lemma FormattedDropsLeadingEmptyLine(L: nat)
    requires L > 0
    ensures var full := seq(L, _ => 'a');
      && SplitSendFormatted("\n" + full, L) == Sent([full])
      && Join([full], "\n") != "\n" + full
  {
    var full := seq(L, _ => 'a');
    var text := "\n" + full;
    assert IndexOf(text, '\n') == Some(0);
    assert '\n' !in full;
    assert text[1..] == full;
    assert Split(text, '\n') == [[], full];
    assert Split(text, '\n')[1..] == [full];
    assert PackLines([full], [], L) == PackLines([], full, L);
    assert PackLines([[], full], [], L) == PackLines([full], [], L);
    assert Join([full], "\n") == full;
    assert |"\n" + full| != |full|;
  }
}
