// What the message compressor leaves of a text and of a message, told by places in the
// text and in the list.
module CompressorRules {
  import opened Text
  import opened Compressor

  // ----- thought blocks ----------------------------------------------------

  /** The three tags whose blocks are pruned. */
  predicate IsPair(open: string, close: string)
  {
    || (open == "<thought>" && close == "</thought>")
    || (open == "<thinking>" && close == "</thinking>")
    || (open == "<scratchpad>" && close == "</scratchpad>")
  }

  /** An opening tag stands at `i` and its closing tag somewhere behind it. */
  ghost predicate StartsBlock(s: string, i: int)
  {
    exists open, close :: IsPair(open, close) && StartsBlockOf(s, open, close, i)
  }

  ghost predicate StartsBlockOf(s: string, open: string, close: string, i: int)
  {
    OccursAt(s, open, i) && exists j :: i + |open| <= j && OccursAt(s, close, j)
  }

  lemma PairOfKind(open: string, close: string) returns (k: nat)
    requires IsPair(open, close)
    ensures k < 3 && OPENERS[k] == open && CLOSERS[k] == close
  {
    k := if open == "<thought>" then 0 else if open == "<thinking>" then 1 else 2;
  }

  lemma KindIsPair(k: nat)
    requires k < 3
    ensures IsPair(OPENERS[k], CLOSERS[k])
  {
  }

  lemma OpenersDiffer(s: string, k: nat, l: nat)
    requires k < 3 && l < 3 && OPENERS[k] <= s && OPENERS[l] <= s
    ensures k == l
  {
    assert s[2] == OPENERS[k][2] == OPENERS[l][2];
    assert s[4] == OPENERS[k][4] == OPENERS[l][4];
  }

  lemma OccursInFront(s: string, lit: string)
    ensures OccursAt(s, lit, 0) <==> lit <= s
  {
  }

  /** A block is there exactly when an opening tag and, behind it, its closing tag are. */
  lemma BlockIsThere(s: string, k: nat)
    requires k < 3
    ensures BlockOfKind(s, k) > 0 <==> StartsBlockOf(s, OPENERS[k], CLOSERS[k], 0)
  {
    var open, close := OPENERS[k], CLOSERS[k];
    OccursInFront(s, open);
    hide OccursAt, IndexOf;
    if open <= s {
      var rest := s[|open|..];
      assert s == open + rest && |open| > 0;
      CloserBehind(open, rest, close);
    }
  }

  lemma CloserBehind(open: string, rest: string, close: string)
    ensures IndexOf(rest, close) >= 0 <==> exists j :: |open| <= j && OccursAt(open + rest, close, j)
  {
    IndexOfIsLeast(rest, close);
    hide IndexOf, OccursAt;
    var r := IndexOf(rest, close);
    if r >= 0 {
      OccursAfter(open, rest, close, |open| + r);
    }
    if j :| |open| <= j && OccursAt(open + rest, close, j) {
      OccursAfter(open, rest, close, j);
    }
  }

  lemma NoBlockHere(s: string)
    requires !StartsBlock(s, 0)
    ensures BlockLength(s) == 0
  {
    hide StartsBlockOf, BlockOfKind;
    forall k: nat | k < 3
      ensures BlockOfKind(s, k) == 0
    {
      KindIsPair(k);
      BlockIsThere(s, k);
    }
  }

  lemma StartsBehind(x: string, s: string, i: int)
    requires |x| <= i
    ensures StartsBlock(x + s, i) <==> StartsBlock(s, i - |x|)
  {
    forall open, close
      ensures StartsBlockOf(x + s, open, close, i) <==> StartsBlockOf(s, open, close, i - |x|)
    {
      StartsBehindOf(x, s, open, close, i);
    }
    hide StartsBlockOf;
  }

  lemma StartsBehindOf(x: string, s: string, open: string, close: string, i: int)
    requires |x| <= i
    ensures StartsBlockOf(x + s, open, close, i) <==> StartsBlockOf(s, open, close, i - |x|)
  {
    OccursAfter(x, s, open, i);
    hide OccursAt;
    if j :| i + |open| <= j && OccursAt(x + s, close, j) {
      OccursAfter(x, s, close, j);
    }
    if j :| i - |x| + |open| <= j && OccursAt(s, close, j) {
      OccursAfter(x, s, close, j + |x|);
    }
  }

  /** Text in front of the first block stays as it is. */
  lemma {:induction false} PruneKeeps(x: string, rest: string)
    requires forall i :: 0 <= i < |x| ==> !StartsBlock(x + rest, i)
    ensures Prune(x + rest) == x + Prune(rest)
    decreases |x|
  {
    hide StartsBlock, BlockLength;
    if |x| == 0 {
      assert x + rest == rest && x + Prune(rest) == Prune(rest);
    } else {
      var s := x + rest;
      NoBlockHere(s);
      assert s[1..] == x[1..] + rest && s == [x[0]] + s[1..];
      forall i | 0 <= i < |x| - 1
        ensures !StartsBlock(s[1..], i)
      {
        StartsBehind([x[0]], s[1..], i + 1);
      }
      PruneKeeps(x[1..], rest);
      Front(x, Prune(rest));
    }
  }

  lemma OccursInPrefix(x: string, rest: string, lit: string, j: int)
    requires j + |lit| <= |x|
    ensures OccursAt(x + rest, lit, j) <==> OccursAt(x, lit, j)
  {
    if 0 <= j {
      assert (x + rest)[j..j + |lit|] == x[j..j + |lit|];
    }
  }

  lemma PruneUnfold(s: string)
    requires BlockLength(s) > 0
    ensures Prune(s) == MARKER + Prune(s[BlockLength(s)..])
  {
    hide BlockLength;
  }

  /** A block ends with the first closing tag behind its opening tag. */
  lemma BlockAtFront(open: string, body: string, close: string, rest: string)
    requires IsPair(open, close) && forall j :: 0 <= j < |body| ==> !OccursAt(body + close, close, j)
    ensures BlockLength(open + body + close + rest) == |open + body + close|
  {
    hide BlockOfKind, OccursAt, IndexOf, IsPair;
    var k := PairOfKind(open, close);
    var s := open + body + close + rest;
    FirstCloser(body, close, rest);
    KindAtFront(k, body + close + rest, |body|);
    assert s == open + (body + close + rest);
    forall l: nat | l < 3 && l != k
      ensures BlockOfKind(s, l) == 0
    {
      OnlyOneKind(s, k, l);
    }
  }

  lemma KindAtFront(k: nat, behind: string, n: nat)
    requires k < 3 && IndexOf(behind, CLOSERS[k]) == n
    ensures OPENERS[k] <= OPENERS[k] + behind
    ensures BlockOfKind(OPENERS[k] + behind, k) == |OPENERS[k]| + n + |CLOSERS[k]|
  {
    hide IndexOf;
    assert (OPENERS[k] + behind)[|OPENERS[k]|..] == behind;
  }

  lemma OnlyOneKind(s: string, k: nat, l: nat)
    requires k < 3 && l < 3 && k != l && OPENERS[k] <= s
    ensures BlockOfKind(s, l) == 0
  {
    hide IndexOf;
    if OPENERS[l] <= s {
      OpenersDiffer(s, k, l);
    }
  }

  lemma FirstCloser(body: string, close: string, rest: string)
    requires forall j :: 0 <= j < |body| ==> !OccursAt(body + close, close, j)
    ensures IndexOf(body + close + rest, close) == |body|
  {
    var behind := body + close + rest;
    assert behind[|body|..|body| + |close|] == close;
    forall j | 0 <= j < |body|
      ensures !OccursAt(behind, close, j)
    {
      OccursInPrefix(body + close, rest, close, j);
    }
    LeastIsIndexOf(behind, close, |body|);
  }

  /** The first block of a text, from its opening tag to the first closing tag behind it,
      becomes the marker; the text in front stays and the rest is pruned likewise. */
  lemma FirstBlockIsPruned(x: string, open: string, body: string, close: string, rest: string)
    requires IsPair(open, close)
    requires forall i :: 0 <= i < |x| ==> !StartsBlock(x + (open + body + close + rest), i)
    requires forall j :: 0 <= j < |body| ==> !OccursAt(body + close, close, j)
    ensures Prune(x + (open + body + close + rest)) == x + ("[Pruned Thought Process]" + Prune(rest))
  {
    hide StartsBlock, BlockLength, OccursAt, Prune, BlockOfKind;
    var s := open + body + close + rest;
    PruneKeeps(x, s);
    BlockAtFront(open, body, close, rest);
    assert |open| > 0;
    PruneUnfold(s);
    assert s[|open + body + close|..] == rest;
  }

  /** A text in which no opening tag is followed by its closing tag comes back as it is. */
  lemma NothingToPrune(s: string)
    requires forall i :: 0 <= i < |s| ==> !StartsBlock(s, i)
    ensures Prune(s) == s
  {
    hide StartsBlock, BlockLength;
    assert s + "" == s && s + Prune("") == s;
    PruneKeeps(s, "");
  }

  // ----- messages ----------------------------------------------------------

  /** A todo list has a signature that ends within the first 512 bytes. */
  lemma TodoByPlace(s: string)
    ensures IsTodo(s) <==> exists sig, k :: sig in SIGNATURES && OccursAt(s, sig, k) && k + |sig| <= 512
  {
    hide OccursAt, IndexOf, Head;
    forall i | 0 <= i < |SIGNATURES|
      ensures IndexOf(Head(s), SIGNATURES[i]) >= 0 <==>
                exists k :: OccursAt(s, SIGNATURES[i], k) && k + |SIGNATURES[i]| <= 512
    {
      SignatureShape(i);
      SignatureInHead(s, SIGNATURES[i]);
    }
    hide *;
    TodoIs(s);
  }

  lemma TodoIs(s: string)
    requires forall i :: 0 <= i < |SIGNATURES| ==>
               (IndexOf(Head(s), SIGNATURES[i]) >= 0 <==>
                 exists k :: OccursAt(s, SIGNATURES[i], k) && k + |SIGNATURES[i]| <= 512)
    ensures IsTodo(s) <==> exists sig, k :: sig in SIGNATURES && OccursAt(s, sig, k) && k + |sig| <= 512
  {
    hide OccursAt, IndexOf, Head, SIGNATURES;
    if sig, k :| sig in SIGNATURES && OccursAt(s, sig, k) && k + |sig| <= 512 {
      var i :| 0 <= i < |SIGNATURES| && SIGNATURES[i] == sig;
    }
  }

  lemma SignatureInHead(s: string, sig: string)
    requires |sig| > 0
    ensures IndexOf(Head(s), sig) >= 0 <==> exists k :: OccursAt(s, sig, k) && k + |sig| <= 512
  {
    IndexOfIsLeast(Head(s), sig);
    hide OccursAt, IndexOf, Head;
    if IndexOf(Head(s), sig) >= 0 {
      HeadOccurrence(s, sig, IndexOf(Head(s), sig));
    }
    if k :| OccursAt(s, sig, k) && k + |sig| <= 512 {
      HeadOccurrence(s, sig, k);
      OccursNotBefore(s, sig, k);
    }
  }

  lemma OccursNotBefore(s: string, sig: string, k: int)
    requires OccursAt(s, sig, k)
    ensures k >= 0
  {
  }

  /** Not the first or second in its run of tool results of one name. */
  ghost predicate LateInRun(ms: seq<Message>, i: nat)
    requires i < |ms| && IsTool(ms[i])
  {
    ms[i].name != "" && exists start: nat :: IsRun(ms, start, i) && Objects(ms, start, i) > 2
  }

  lemma {:induction false} ObjectsSplit(ms: seq<Message>, start: nat, mid: nat, i: nat)
    requires start <= mid <= i < |ms|
    ensures Objects(ms, start, i) == Objects(ms, mid, i) + if start < mid then Objects(ms, start, mid - 1) else 0
    decreases i
  {
    if i > mid {
      ObjectsSplit(ms, start, mid, i - 1);
    }
  }

  lemma {:induction false} PreviousIsBetween(ms: seq<Message>, i: nat, k: nat)
    requires k < i <= |ms| && ms[k].Msg?
    ensures Previous(ms, i) >= k
  {
  }

  /** Every run up to `i` that cannot be extended has as many results. */
  lemma RunsAgree(ms: seq<Message>, a: nat, b: nat, i: nat)
    requires i < |ms| && IsTool(ms[i]) && IsRun(ms, a, i) && IsRun(ms, b, i) && a <= b
    ensures Objects(ms, a, i) == Objects(ms, b, i)
  {
    if a < b {
      ObjectsSplit(ms, a, b, i);
      var j := Previous(ms, b);
      if j >= a {
        assert false;
      }
      NoObjects(ms, a, b - 1);
    }
  }

  lemma {:induction false} NoObjects(ms: seq<Message>, a: nat, i: nat)
    requires i < |ms| && forall k :: a <= k <= i ==> ms[k].NotAnObject?
    ensures Objects(ms, a, i) == 0
    decreases i
  {
    if i > 0 {
      NoObjects(ms, a, i - 1);
    }
  }

  lemma LateIff(ms: seq<Message>, i: nat)
    requires i < |ms| && IsTool(ms[i])
    ensures RunPosition(ms, i) > 2 <==> LateInRun(ms, i)
  {
    hide IsRun, Objects;
    if ms[i].name != "" {
      RunPositionCounts(ms, i);
      var start: nat :| IsRun(ms, start, i) && RunPosition(ms, i) == Objects(ms, start, i);
      forall other: nat | IsRun(ms, other, i)
        ensures Objects(ms, other, i) == Objects(ms, start, i)
      {
        if other <= start {
          RunsAgree(ms, other, start, i);
        } else {
          RunsAgree(ms, start, other, i);
        }
      }
    }
  }

  /** The first text block over 200 bytes is cut to 200 bytes and the suffix, and the
      blocks behind it are gone; without such a block nothing changes. */
  ghost predicate IsCut(blocks: seq<Block>, out: seq<Block>)
  {
    if forall k :: 0 <= k < |blocks| ==> !LongText(blocks[k]) then out == blocks
    else exists j :: CutAt(blocks, j, out)
  }

  predicate LongText(b: Block)
  {
    b.TextBlock? && |b.text| > 200
  }

  ghost predicate CutAt(blocks: seq<Block>, j: nat, out: seq<Block>)
  {
    && j < |blocks| && LongText(blocks[j]) && (forall k :: 0 <= k < j ==> !LongText(blocks[k]))
    && out == blocks[..j] + [TextBlock(blocks[j].text[..200] + SUFFIX, blocks[j].others)]
  }

  lemma {:induction false} CutBlocksIsCut(blocks: seq<Block>)
    ensures IsCut(blocks, CutBlocks(blocks))
  {
    if forall k :: 0 <= k < |blocks| ==> !LongText(blocks[k]) {
      NothingCut(blocks);
    } else {
      var j := FirstCut(blocks);
    }
  }

  lemma {:induction false} NothingCut(blocks: seq<Block>)
    requires forall k :: 0 <= k < |blocks| ==> !LongText(blocks[k])
    ensures CutBlocks(blocks) == blocks
  {
    if |blocks| > 0 {
      NothingCut(blocks[1..]);
      assert blocks == [blocks[0]] + blocks[1..];
    }
  }

  lemma {:induction false} FirstCut(blocks: seq<Block>) returns (j: nat)
    requires exists k :: 0 <= k < |blocks| && LongText(blocks[k])
    ensures CutAt(blocks, j, CutBlocks(blocks))
  {
    if LongText(blocks[0]) {
      j := 0;
      assert blocks[..0] == [];
    } else {
      var k :| 0 <= k < |blocks| && LongText(blocks[k]);
      assert LongText(blocks[1..][k - 1]);
      var i := FirstCut(blocks[1..]);
      j := i + 1;
      hide LongText;
      assert blocks[..j] == [blocks[0]] + blocks[1..][..i];
      assert forall k :: 1 <= k < j ==> blocks[k] == blocks[1..][k - 1];
      assert blocks[j] == blocks[1..][i];
      OneInFront(blocks[0], blocks[1..][..i], [TextBlock(blocks[j].text[..200] + SUFFIX, blocks[j].others)]);
    }
  }

  lemma OneInFront(b: Block, x: seq<Block>, y: seq<Block>)
    ensures [b] + (x + y) == ([b] + x) + y
  {
  }

  /** A stale tool result: unchanged up to 250 bytes of text, else cut. */
  ghost predicate IsTruncated(c: Content, out: Content)
  {
    if |TextOf(c)| <= 250 then out == c
    else
      match c
      case Str(s) => out == Str(s[..200] + SUFFIX)
      case Blocks(blocks) => out.Blocks? && IsCut(blocks, out.blocks)
      case NoText(_) => out == c
  }

  ghost predicate IsPruned(c: Content, out: Content)
  {
    match c
    case Str(s) => out == Str(Prune(s))
    case Blocks(blocks) =>
      && out.Blocks? && |out.blocks| == |blocks|
      && forall j :: 0 <= j < |blocks| ==>
           out.blocks[j] ==
           if blocks[j].TextBlock? then TextBlock(Prune(blocks[j].text), blocks[j].others) else blocks[j]
    case NoText(_) => out == c
  }

  /** What becomes of message `i`, for every list: assistant turns lose their thought
      blocks and both reasoning fields; tool results that are no todo list are cut, or
      blank from the third of their run on; all else, and the last message, stays. */
  lemma MessageByPlace(ms: seq<Message>, i: nat)
    requires i < |ms|
    ensures var m, out := ms[i], Compressed(ms)[i];
            if m.NotAnObject? || i == |ms| - 1 then out == m
            else if m.role == "assistant" then
              IsPruned(m.content, out.content)
              && out == Msg(m.role, m.name, out.content, None, None, m.others)
            else if (m.role == "tool" || m.role == "function") && !IsTodo(TextOf(m.content)) then
              && out == Msg(m.role, m.name, out.content, m.reasoning, m.reasoningContent, m.others)
              && if LateInRun(ms, i) then out.content == Str("") else IsTruncated(m.content, out.content)
            else out == m
  {
    hide Prune, IsTodo, LateInRun, RunPosition, IsCut;
    if IsTool(ms[i]) {
      LateIff(ms, i);
      if ms[i].content.Blocks? {
        CutBlocksIsCut(ms[i].content.blocks);
      }
    }
  }
}
