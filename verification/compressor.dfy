// The agent-message compressor: thought pruning, truncation of stale tool results
// and blanking of repeated ones.
module Compressor {
  import opened Text

  // ----- pruning thought blocks --------------------------------------------

  const MARKER := "[Pruned Thought Process]"

  const OPENERS := ["<thought>", "<thinking>", "<scratchpad>"]
  const CLOSERS := ["</thought>", "</thinking>", "</scratchpad>"]

  /** Length of the block of kind `k` at the front of `s`, 0 if there is none: the
      opening tag up to the first closing tag after it. */
  function BlockOfKind(s: string, k: nat): (n: nat)
    requires k < 3
    ensures n <= |s|
  {
    if OPENERS[k] <= s then
      var j := IndexOf(s[|OPENERS[k]|..], CLOSERS[k]);
      if j < 0 then 0 else |OPENERS[k]| + j + |CLOSERS[k]|
    else 0
  }

  function BlockLength(s: string): (n: nat)
    ensures n <= |s|
  {
    if BlockOfKind(s, 0) > 0 then BlockOfKind(s, 0)
    else if BlockOfKind(s, 1) > 0 then BlockOfKind(s, 1)
    else BlockOfKind(s, 2)
  }

  /** Leftmost, shortest thought blocks replaced by the marker. */
  function Prune(s: string): string
    decreases |s|
  {
    if |s| == 0 then ""
    else if BlockLength(s) > 0 then MARKER + Prune(s[BlockLength(s)..])
    else [s[0]] + Prune(s[1..])
  }

  lemma MarkerChars()
    ensures |MARKER| == 24 && MARKER[0] == '['
    ensures forall i :: 0 <= i < |MARKER| ==> MARKER[i] != '<'
  {
  }

  /** What the openers and closers have in common. */
  predicate TagLike(tag: string)
  {
    |tag| > 0 && tag[0] == '<' && forall i :: 0 <= i < |tag| ==> tag[i] != '['
  }

  lemma TagsAreTagLike(k: nat)
    requires k < 3
    ensures TagLike(OPENERS[k]) && TagLike(CLOSERS[k])
  {
    assert TagLike("<thought>") && TagLike("</thought>");
    assert TagLike("<thinking>") && TagLike("</thinking>");
    assert TagLike("<scratchpad>") && TagLike("</scratchpad>");
  }

  lemma NoBlockWithoutOpener(s: string)
    requires |s| > 0 && s[0] != '<'
    ensures BlockLength(s) == 0
  {
    TagsAreTagLike(0);
    TagsAreTagLike(1);
    TagsAreTagLike(2);
  }

  lemma PruneOne(c: char, t: string)
    requires c != '<'
    ensures Prune([c] + t) == [c] + Prune(t)
  {
    hide BlockLength;
    NoBlockWithoutOpener([c] + t);
    assert ([c] + t)[1..] == t;
  }

  lemma {:induction false} PruneSkips(x: string, t: string)
    requires forall i :: 0 <= i < |x| ==> x[i] != '<'
    ensures Prune(x + t) == x + Prune(t)
  {
    hide Prune;
    if |x| == 0 {
      assert x + t == t && x + Prune(t) == Prune(t);
    } else {
      PruneSkips(x[1..], t);
      PruneOne(x[0], x[1..] + t);
      Front(x, t);
      Front(x, Prune(t));
    }
  }

  lemma Front(x: string, t: string)
    requires |x| > 0
    ensures [x[0]] + (x[1..] + t) == x + t
  {
  }

  /** A tag at the front of the pruned text was at the front of the text. */
  lemma {:induction false} PrunedPrefix(s: string, tag: string)
    requires tag <= Prune(s) && forall i :: 0 <= i < |tag| ==> tag[i] != '['
    ensures tag <= s && Prune(s)[|tag|..] == Prune(s[|tag|..])
    decreases |tag|
  {
    hide BlockLength;
    if |tag| == 0 {
      assert s[0..] == s && Prune(s)[0..] == Prune(s);
    } else {
      assert tag[0] == Prune(s)[0];
      if BlockLength(s) > 0 {
        MarkerChars();
        assert false;
      }
      assert Prune(s)[1..] == Prune(s[1..]);
      assert tag[1..] <= Prune(s[1..]);
      PrunedPrefix(s[1..], tag[1..]);
      assert tag == [tag[0]] + tag[1..] && s == [s[0]] + s[1..];
      assert Prune(s)[|tag|..] == Prune(s[1..])[|tag| - 1..];
      assert s[1..][|tag| - 1..] == s[|tag|..];
    }
  }

  lemma OccursAfter(x: string, y: string, tag: string, k: int)
    requires |x| <= k
    ensures OccursAt(x + y, tag, k) <==> OccursAt(y, tag, k - |x|)
  {
    if k <= |x + y| - |tag| {
      assert (x + y)[k..k + |tag|] == y[k - |x|..k - |x| + |tag|];
    }
  }

  /** A tag anywhere in the pruned text was somewhere in the text. */
  lemma {:induction false} PrunedOccurrence(s: string, tag: string, k: int) returns (k': int)
    requires TagLike(tag) && OccursAt(Prune(s), tag, k)
    ensures OccursAt(s, tag, k')
    decreases |s|
  {
    hide BlockLength;
    assert Prune(s)[k] == Prune(s)[k..k + |tag|][0] == '<';
    if BlockLength(s) > 0 {
      MarkerChars();
      var n := BlockLength(s);
      OccursAfter(MARKER, Prune(s[n..]), tag, k);
      var r := PrunedOccurrence(s[n..], tag, k - |MARKER|);
      k' := n + r;
      OccursAfter(s[..n], s[n..], tag, k');
      assert s == s[..n] + s[n..];
    } else if k == 0 {
      assert Prune(s)[..|tag|] == tag;
      PrunedPrefix(s, tag);
      assert s[..|tag|] == tag;
      k' := 0;
    } else {
      OccursAfter([s[0]], Prune(s[1..]), tag, k);
      var r := PrunedOccurrence(s[1..], tag, k - 1);
      k' := 1 + r;
      OccursAfter([s[0]], s[1..], tag, k');
      assert s == [s[0]] + s[1..];
    }
  }

  /** Pruning cannot complete a block that was not there. */
  lemma PrunedBlock(s: string, k: nat)
    requires k < 3 && BlockOfKind(s, k) == 0
    ensures BlockOfKind(Prune(s), k) == 0
  {
    hide Prune;
    TagsAreTagLike(k);
    var open, close := OPENERS[k], CLOSERS[k];
    if open <= Prune(s) {
      PrunedPrefix(s, open);
      var rest := s[|open|..];
      IndexOfIsLeast(Prune(rest), close);
      IndexOfIsLeast(rest, close);
      if IndexOf(Prune(rest), close) >= 0 {
        var r := PrunedOccurrence(rest, close, IndexOf(Prune(rest), close));
        assert false;
      }
    }
  }

  /** Pruning twice is pruning once, for every text. */
  lemma {:induction false} PruneIdempotent(s: string)
    ensures Prune(Prune(s)) == Prune(s)
    decreases |s|
  {
    if |s| > 0 {
      if BlockLength(s) > 0 {
        hide BlockLength;
        MarkerChars();
        PruneIdempotent(s[BlockLength(s)..]);
        PruneSkips(MARKER, Prune(s[BlockLength(s)..]));
      } else {
        PrunedBlock(s, 0);
        PrunedBlock(s, 1);
        PrunedBlock(s, 2);
        hide BlockOfKind;
        PruneIdempotent(s[1..]);
        assert Prune(s)[1..] == Prune(s[1..]);
      }
    }
  }

  // ----- messages ----------------------------------------------------------

  /** A content block; anything without a text of its own is kept as it is. */
  datatype Block = TextBlock(text: string, others: string) | OtherBlock(json: string)

  /** A message's content; `NoText` is an absent or otherwise typed field. */
  datatype Content = Str(s: string) | Blocks(blocks: seq<Block>) | NoText(json: string)

  datatype Message =
    | Msg(role: string, name: string, content: Content,
          reasoning: Option<string>, reasoningContent: Option<string>, others: string)
    | NotAnObject(json: string)

  function BlockTexts(blocks: seq<Block>): string
  {
    if |blocks| == 0 then ""
    else
      var last := blocks[|blocks| - 1];
      BlockTexts(blocks[..|blocks| - 1]) + (if last.TextBlock? then last.text else "")
  }

  function TextOf(c: Content): string
  {
    match c
    case Str(s) => s
    case Blocks(blocks) => BlockTexts(blocks)
    case NoText(_) => ""
  }

  method CollectText(c: Content) returns (contentStr: string, hasContent: bool)
    ensures contentStr == TextOf(c)
    ensures hasContent == (c.Str? || (c.Blocks? && exists b :: b in c.blocks && b.TextBlock?))
  {
    contentStr, hasContent := "", false;
    if c.Str? {
      return c.s, true;
    }
    if c.Blocks? {
      for j := 0 to |c.blocks|
        invariant contentStr == BlockTexts(c.blocks[..j])
        invariant hasContent == exists b :: b in c.blocks[..j] && b.TextBlock?
      {
        assert c.blocks[..j + 1] == c.blocks[..j] + [c.blocks[j]];
        if c.blocks[j].TextBlock? {
          contentStr := contentStr + c.blocks[j].text;
          hasContent := true;
        }
      }
      assert c.blocks[..|c.blocks|] == c.blocks;
    }
  }

  // ----- todo lists --------------------------------------------------------

  const SIGNATURES := [
    "\"status\":\"pending\"", "\"status\":\"in_progress\"", "\"status\":\"completed\"",
    "\"status\":\"todo\"", "\"status\":\"done\"",
    "\"todos\":", "\"tasks\":", "\"checklist\":", "\"todoList\":",
    "- [ ]", "- [x]", "* [ ]", "* [x]"]

  const HEAD := 512

  function Head(content: string): string
  {
    if |content| > HEAD then content[..HEAD] else content
  }

  /** Some signature occurs in the first 512 bytes. */
  predicate IsTodo(content: string)
  {
    exists i :: 0 <= i < |SIGNATURES| && IndexOf(Head(content), SIGNATURES[i]) >= 0
  }

  method LooksLikeTodoList(content: string) returns (r: bool)
    ensures r == IsTodo(content)
  {
    hide IndexOf;
    if content == "" {
      NothingIsNotTodo();
      return false;
    }
    var head := content;
    if |head| > HEAD {
      head := head[..HEAD];
    }
    for i := 0 to |SIGNATURES|
      invariant forall k :: 0 <= k < i ==> IndexOf(head, SIGNATURES[k]) < 0
    {
      if IndexOf(head, SIGNATURES[i]) >= 0 {
        return true;
      }
    }
    return false;
  }

  lemma SignatureShape(i: int)
    requires 0 <= i < |SIGNATURES|
    ensures |SIGNATURES[i]| > 0
    ensures SIGNATURES[i][0] == '"' || SIGNATURES[i][0] == '-' || SIGNATURES[i][0] == '*'
    ensures forall k :: 0 <= k < |SIGNATURES[i]| ==> SIGNATURES[i][k] != '\n'
  {
  }

  lemma NothingIsNotTodo()
    ensures !IsTodo("")
  {
    forall i | 0 <= i < |SIGNATURES|
      ensures IndexOf(Head(""), SIGNATURES[i]) < 0
    {
      SignatureShape(i);
    }
  }

  // ----- truncation --------------------------------------------------------

  const KEEP := 200

  /** The bytes the source's literal has for its two ellipses. */
  const ELLIPSIS := "\U{00C3}\U{00A2}\U{00E2}\U{0082}\U{00AC}\U{00C2}\U{00A6}"

  const SUFFIX := "\n[" + ELLIPSIS + "truncated by Synapse Proxy L3" + ELLIPSIS + "]"

  function Cut(text: string): string
    requires |text| >= KEEP
  {
    text[..KEEP] + SUFFIX
  }

  /** The first text block over the limit is cut and the blocks after it go. */
  function CutBlocks(blocks: seq<Block>): seq<Block>
  {
    if |blocks| == 0 then []
    else if blocks[0].TextBlock? && |blocks[0].text| > KEEP then [blocks[0].(text := Cut(blocks[0].text))]
    else [blocks[0]] + CutBlocks(blocks[1..])
  }

  function Truncate(c: Content): Content
  {
    if |TextOf(c)| <= KEEP + 50 then c
    else
      match c
      case Str(s) => Str(Cut(s))
      case Blocks(blocks) => Blocks(CutBlocks(blocks))
      case NoText(_) => c
  }

  /** No character that starts a signature. */
  predicate Harmless(s: string)
  {
    forall k :: 0 <= k < |s| ==> s[k] != '"' && s[k] != '-' && s[k] != '*'
  }

  lemma SuffixShape()
    ensures |SUFFIX| == 46 && SUFFIX[0] == '\n' && Harmless(SUFFIX)
  {
    assert Harmless("\n[");
    assert Harmless(ELLIPSIS);
    assert Harmless("truncated by Synapse Proxy L3");
    assert Harmless("]");
  }

  /** An occurrence across or after the end of `p` shows in the first character of
      `t` or in its own first character. */
  lemma OccurrenceInConcat(p: string, t: string, lit: string, k: int)
    requires |lit| > 0 && OccursAt(p + t, lit, k)
    ensures || OccursAt(p, lit, k)
            || (k <= |p| < k + |lit| && |t| > 0 && lit[|p| - k] == t[0])
            || (|p| < k < |p| + |t| && lit[0] == t[k - |p|])
  {
    var s := p + t;
    assert forall d :: 0 <= d < |lit| ==> lit[d] == s[k..k + |lit|][d] == s[k + d];
    if k + |lit| <= |p| {
      assert s[k..k + |lit|] == p[k..k + |lit|];
    }
  }

  lemma OccurrenceInHead(p: string, q: string, lit: string, k: int)
    requires OccursAt(p, lit, k)
    ensures OccursAt(p + q, lit, k)
    ensures OccursAt(Head(p), lit, k) <==> k + |lit| <= HEAD
  {
    assert (p + q)[k..k + |lit|] == p[k..k + |lit|];
    if k + |lit| <= HEAD {
      assert Head(p)[k..k + |lit|] == p[k..k + |lit|];
    }
  }

  lemma HeadOccurrence(s: string, lit: string, k: int)
    requires |lit| > 0
    ensures OccursAt(Head(s), lit, k) <==> OccursAt(s, lit, k) && k + |lit| <= HEAD
  {
    if OccursAt(s, lit, k) {
      OccurrenceInHead(s, "", lit, k);
    }
    if OccursAt(Head(s), lit, k) {
      assert Head(s)[k..k + |lit|] == s[k..k + |lit|];
    }
  }

  /** Cutting a text that is no todo list and appending the suffix never makes it
      look like one. */
  lemma CutIsNotTodo(p: string, q: string)
    requires !IsTodo(p + q)
    ensures !IsTodo(p + SUFFIX)
  {
    hide IndexOf, Head;
    forall i | 0 <= i < |SIGNATURES|
      ensures IndexOf(Head(p + SUFFIX), SIGNATURES[i]) < 0
    {
      assert IndexOf(Head(p + q), SIGNATURES[i]) < 0;
      SignatureShape(i);
      SuffixShape();
      SignatureNotInCut(p, q, SIGNATURES[i]);
    }
  }

  lemma {:induction false} SignatureNotInCut(p: string, q: string, sig: string)
    requires |sig| > 0 && (sig[0] == '"' || sig[0] == '-' || sig[0] == '*')
    requires forall k :: 0 <= k < |sig| ==> sig[k] != '\n'
    requires |SUFFIX| > 0 && SUFFIX[0] == '\n' && Harmless(SUFFIX)
    requires IndexOf(Head(p + q), sig) < 0
    ensures IndexOf(Head(p + SUFFIX), sig) < 0
  {
    hide IndexOf, Head;
    forall k | 0 <= k
      ensures !OccursAt(Head(p + SUFFIX), sig, k)
    {
      IndexOfIsLeast(Head(p + q), sig);
      HeadOccurrence(p + SUFFIX, sig, k);
      HeadOccurrence(p + q, sig, k);
      if OccursAt(p + SUFFIX, sig, k) {
        OccurrenceInConcat(p, SUFFIX, sig, k);
        if OccursAt(p, sig, k) {
          OccurrenceInHead(p, q, sig, k);
        }
      }
    }
    LeastIsIndexOf(Head(p + SUFFIX), sig, -1);
  }

  lemma {:induction false} BlockTextsSplit(a: seq<Block>, b: seq<Block>)
    ensures BlockTexts(a + b) == BlockTexts(a) + BlockTexts(b)
  {
    if |b| == 0 {
      assert a + b == a;
    } else {
      assert (a + b)[..|a + b| - 1] == a + b[..|b| - 1];
      BlockTextsSplit(a, b[..|b| - 1]);
    }
  }

  /** Cut blocks spell a prefix of the old text with the suffix after it, unless no
      block was long enough. */
  lemma {:induction false} CutBlocksText(blocks: seq<Block>) returns (p: string, q: string)
    ensures BlockTexts(blocks) == p + q
    ensures CutBlocks(blocks) == blocks || BlockTexts(CutBlocks(blocks)) == p + SUFFIX
  {
    if |blocks| == 0 {
      p, q := "", "";
    } else {
      var head, tail := blocks[0], blocks[1..];
      var own := if head.TextBlock? then head.text else "";
      assert blocks == [head] + tail;
      BlockTextsCons(head, tail);
      if head.TextBlock? && |head.text| > KEEP {
        p, q := own[..KEEP], own[KEEP..] + BlockTexts(tail);
        ConcatMiddle(own[..KEEP], own[KEEP..], BlockTexts(tail), own);
        BlockTextsCons(head.(text := Cut(head.text)), []);
      } else {
        var p', q' := CutBlocksText(tail);
        p, q := own + p', q';
        BlockTextsCons(head, CutBlocks(tail));
        ConcatMiddle(own, p', q', own + p');
        ConcatMiddle(own, p', SUFFIX, own + p');
        assert CutBlocks(tail) == tail ==> CutBlocks(blocks) == blocks;
      }
    }
  }

  lemma BlockTextsCons(head: Block, tail: seq<Block>)
    ensures BlockTexts([head] + tail) == (if head.TextBlock? then head.text else "") + BlockTexts(tail)
  {
    BlockTextsSplit([head], tail);
    assert [head][..0] == [];
    assert BlockTexts([head]) == (if head.TextBlock? then head.text else "");
  }

  lemma ConcatMiddle(a: string, b: string, c: string, ab: string)
    requires ab == a + b
    ensures ab + c == a + (b + c)
  {
  }

  /** Cutting the blocks again changes nothing. */
  lemma {:induction false} CutBlocksIdempotent(blocks: seq<Block>)
    ensures CutBlocks(CutBlocks(blocks)) == CutBlocks(blocks)
  {
    if |blocks| > 0 {
      if blocks[0].TextBlock? && |blocks[0].text| > KEEP {
        SuffixShape();
        assert Cut(Cut(blocks[0].text)) == Cut(blocks[0].text);
      } else {
        CutBlocksIdempotent(blocks[1..]);
        assert ([blocks[0]] + CutBlocks(blocks[1..]))[1..] == CutBlocks(blocks[1..]);
      }
    }
  }

  /** Truncation is idempotent and keeps a text that is no todo list that way. */
  lemma TruncateIdempotent(c: Content)
    ensures Truncate(Truncate(c)) == Truncate(c)
    ensures !IsTodo(TextOf(c)) ==> !IsTodo(TextOf(Truncate(c)))
  {
    if |TextOf(c)| > KEEP + 50 {
      match c
      case Str(s) =>
        SuffixShape();
        if !IsTodo(s) {
          assert s == s[..KEEP] + s[KEEP..];
          CutIsNotTodo(s[..KEEP], s[KEEP..]);
        }
      case Blocks(blocks) =>
        var p, q := CutBlocksText(blocks);
        CutBlocksIdempotent(blocks);
        if !IsTodo(TextOf(c)) {
          CutIsNotTodo(p, q);
        }
      case NoText(_) =>
    }
  }

  // ----- one message -------------------------------------------------------

  function PruneBlocks(blocks: seq<Block>): seq<Block>
  {
    seq(|blocks|, j requires 0 <= j < |blocks| =>
      if blocks[j].TextBlock? then blocks[j].(text := Prune(blocks[j].text)) else blocks[j])
  }

  function PruneContent(c: Content): Content
  {
    match c
    case Str(s) => Str(Prune(s))
    case Blocks(blocks) => Blocks(PruneBlocks(blocks))
    case NoText(_) => c
  }

  predicate IsTool(m: Message)
  {
    m.Msg? && (m.role == "tool" || m.role == "function")
  }

  /** What becomes of a message, given whether it is the last one and, for a tool
      result, its position in its run. */
  function Rewrite(m: Message, recent: bool, position: nat): (r: Message)
    ensures r.Msg? == m.Msg?
  {
    if m.NotAnObject? || recent then m
    else if m.role == "assistant" then
      m.(content := PruneContent(m.content), reasoning := None, reasoningContent := None)
    else if IsTool(m) && !IsTodo(TextOf(m.content)) then
      m.(content := if position > 2 then Str("") else Truncate(m.content))
    else m
  }

  lemma RewriteIdempotent(m: Message, recent: bool, position: nat)
    ensures Rewrite(Rewrite(m, recent, position), recent, position) == Rewrite(m, recent, position)
  {
    if m.Msg? && !recent {
      if m.role == "assistant" {
        match m.content
        case Str(s) =>
          PruneIdempotent(s);
        case Blocks(blocks) =>
          forall j | 0 <= j < |blocks| && blocks[j].TextBlock? {
            PruneIdempotent(blocks[j].text);
          }
        case NoText(_) =>
      } else if IsTool(m) && !IsTodo(TextOf(m.content)) {
        TruncateIdempotent(m.content);
        NothingIsNotTodo();
      }
    }
  }

  // ----- runs of tool results ----------------------------------------------

  /** The last JSON object before position `i`, or -1. */
  function Previous(ms: seq<Message>, i: nat): (j: int)
    requires i <= |ms|
    ensures -1 <= j < i && (j >= 0 ==> ms[j].Msg?)
    ensures forall k :: j < k < i ==> ms[k].NotAnObject?
  {
    if i == 0 then -1 else if ms[i - 1].Msg? then i - 1 else Previous(ms, i - 1)
  }

  /** Position of tool message `i` in the maximal run of tool messages of its name
      that it belongs to; unnamed ones are all first. */
  function RunPosition(ms: seq<Message>, i: nat): (n: nat)
    requires i < |ms|
    ensures ms[i].Msg? ==> n >= 1
  {
    if ms[i].NotAnObject? then 0
    else
      var j := Previous(ms, i);
      if ms[i].name != "" && j >= 0 && IsTool(ms[j]) && ms[j].name == ms[i].name then RunPosition(ms, j) + 1 else 1
  }

  function Compressed(ms: seq<Message>): seq<Message>
  {
    seq(|ms|, i requires 0 <= i < |ms| => Rewrite(ms[i], i == |ms| - 1, RunPosition(ms, i)))
  }

  /** The messages are the same as far as roles, names and order go. */
  ghost predicate SameShape(ms: seq<Message>, ns: seq<Message>)
  {
    && |ms| == |ns|
    && forall i :: 0 <= i < |ms| ==>
         && ms[i].Msg? == ns[i].Msg?
         && (ms[i].Msg? ==> ms[i].role == ns[i].role && ms[i].name == ns[i].name && ms[i].others == ns[i].others)
  }

  lemma {:induction false} SameShapeSameRuns(ms: seq<Message>, ns: seq<Message>, i: nat)
    requires SameShape(ms, ns)
    ensures i <= |ms| ==> Previous(ms, i) == Previous(ns, i)
    ensures i < |ms| ==> RunPosition(ms, i) == RunPosition(ns, i)
  {
    if 0 < i <= |ms| {
      SameShapeSameRuns(ms, ns, i - 1);
    }
    if i < |ms| && Previous(ms, i) >= 0 {
      SameShapeSameRuns(ms, ns, Previous(ms, i));
    }
  }

  /** Compressing a compressed list changes nothing, whatever the messages. */
  lemma {:induction false} CompressIdempotent(ms: seq<Message>)
    ensures Compressed(Compressed(ms)) == Compressed(ms)
  {
    hide Rewrite, RunPosition;
    var ns := Compressed(ms);
    CompressKeeps(ms);
    forall i: nat | i < |ms|
      ensures Compressed(ns)[i] == ns[i]
    {
      SameShapeSameRuns(ms, ns, i);
      RewriteIdempotent(ms[i], i == |ms| - 1, RunPosition(ms, i));
    }
  }

  /** Count, order, roles and names survive; the last message, todo lists, and every
      role but assistant, tool and function come through verbatim. */
  lemma CompressKeeps(ms: seq<Message>)
    ensures SameShape(ms, Compressed(ms))
    ensures |ms| > 0 ==> Compressed(ms)[|ms| - 1] == ms[|ms| - 1]
    ensures forall i :: 0 <= i < |ms| && IsTool(ms[i]) && IsTodo(TextOf(ms[i].content)) ==> Compressed(ms)[i] == ms[i]
    ensures forall i :: 0 <= i < |ms| && ms[i].Msg? && ms[i].role != "assistant" && !IsTool(ms[i]) ==>
              Compressed(ms)[i] == ms[i]
  {
  }

  /** A tool result ends up blank exactly when it was, or when it is third or later
      in its run, not the last message and not a todo list. */
  lemma BlankedExactlyWhenRepeated(ms: seq<Message>, i: nat)
    requires i < |ms| && IsTool(ms[i])
    ensures Compressed(ms)[i].content == Str("") <==>
              ms[i].content == Str("") || (RunPosition(ms, i) > 2 && i < |ms| - 1 && !IsTodo(TextOf(ms[i].content)))
  {
    SuffixShape();
  }

  /** A run position counts: it is n + 1 exactly when the objects just before are
      n tool results of that name and the one before those is not. */
  lemma {:induction false} RunPositionCounts(ms: seq<Message>, i: nat)
    requires i < |ms| && IsTool(ms[i]) && ms[i].name != ""
    ensures exists start: nat :: IsRun(ms, start, i) && RunPosition(ms, i) == Objects(ms, start, i)
  {
    var j := Previous(ms, i);
    if j >= 0 && IsTool(ms[j]) && ms[j].name == ms[i].name {
      RunPositionCounts(ms, j);
      var start: nat :| IsRun(ms, start, j) && RunPosition(ms, j) == Objects(ms, start, j);
      ObjectsStep(ms, start, j, i);
      assert IsRun(ms, start, i);
    } else {
      ObjectsNone(ms, j + 1, i);
      assert IsRun(ms, i, i);
    }
  }

  /** From `start` to `i` every object is a tool result named like `i`, and the
      object before `start` is not. */
  ghost predicate IsRun(ms: seq<Message>, start: nat, i: nat)
    requires i < |ms| && ms[i].Msg?
  {
    && start <= i
    && (forall k :: start <= k <= i && ms[k].Msg? ==> IsTool(ms[k]) && ms[k].name == ms[i].name)
    && (var j := Previous(ms, start); j >= 0 ==> !(IsTool(ms[j]) && ms[j].name == ms[i].name))
  }

  /** How many JSON objects there are from `start` to `i`, both included. */
  function Objects(ms: seq<Message>, start: nat, i: nat): nat
    requires i < |ms|
  {
    if i < start then 0
    else (if ms[i].Msg? then 1 else 0) + (if i == 0 then 0 else Objects(ms, start, i - 1))
  }

  lemma {:induction false} ObjectsStep(ms: seq<Message>, start: nat, j: nat, i: nat)
    requires start <= j < i < |ms| && ms[i].Msg? && forall k :: j < k < i ==> ms[k].NotAnObject?
    ensures Objects(ms, start, i) == Objects(ms, start, j) + 1
  {
    ObjectsGap(ms, start, j, i - 1);
  }

  lemma {:induction false} ObjectsGap(ms: seq<Message>, start: nat, j: nat, i: nat)
    requires start <= j <= i < |ms| && forall k :: j < k <= i ==> ms[k].NotAnObject?
    ensures Objects(ms, start, i) == Objects(ms, start, j)
  {
    if j < i {
      ObjectsGap(ms, start, j, i - 1);
    }
  }

  lemma ObjectsNone(ms: seq<Message>, from: nat, i: nat)
    requires from <= i < |ms| && ms[i].Msg?
    ensures Objects(ms, i, i) == 1
  {
  }

  // ----- the loops ---------------------------------------------------------

  method PruneEachBlock(blocks: seq<Block>) returns (out: seq<Block>)
    ensures out == PruneBlocks(blocks)
  {
    hide Prune;
    out := blocks;
    for j := 0 to |blocks|
      invariant |out| == |blocks|
      invariant forall k :: 0 <= k < j ==> out[k] == PruneBlocks(blocks)[k]
      invariant forall k :: j <= k < |blocks| ==> out[k] == blocks[k]
    {
      if blocks[j].TextBlock? {
        out := out[j := blocks[j].(text := Prune(blocks[j].text))];
      }
    }
  }

  lemma {:induction false} CutBlocksAfter(a: seq<Block>, b: seq<Block>)
    requires forall k :: 0 <= k < |a| ==> !(a[k].TextBlock? && |a[k].text| > KEEP)
    ensures CutBlocks(a + b) == a + CutBlocks(b)
  {
    if |a| == 0 {
      assert a + b == b;
    } else {
      assert (a + b)[1..] == a[1..] + b;
      CutBlocksAfter(a[1..], b);
    }
  }

  method CutFirstLongBlock(blocks: seq<Block>) returns (out: seq<Block>)
    ensures out == CutBlocks(blocks)
  {
    for j := 0 to |blocks|
      invariant forall k :: 0 <= k < j ==> !(blocks[k].TextBlock? && |blocks[k].text| > KEEP)
    {
      if blocks[j].TextBlock? && |blocks[j].text| > KEEP {
        CutBlocksAfter(blocks[..j], blocks[j..]);
        assert blocks == blocks[..j] + blocks[j..];
        return blocks[..j] + [blocks[j].(text := blocks[j].text[..KEEP] + SUFFIX)];
      }
    }
    CutBlocksAfter(blocks, []);
    assert blocks + [] == blocks;
    return blocks;
  }

  /** The running counter before message `i`: the run of the last object seen. */
  ghost predicate CounterAt(ms: seq<Message>, i: nat, lastToolName: string, count: nat)
    requires i <= |ms|
  {
    var j := Previous(ms, i);
    if j >= 0 && IsTool(ms[j]) then lastToolName == ms[j].name && count == RunPosition(ms, j)
    else lastToolName == "" && count == 0
  }

  method RewriteContent(m: Message, recent: bool) returns (out: Message, isTodo: bool)
    requires m.Msg?
    ensures out == Rewrite(m, recent, 1)
    ensures IsTool(m) ==> isTodo == IsTodo(TextOf(m.content))
  {
    hide Prune, IsTodo;
    var contentStr, hasContent := CollectText(m.content);
    out, isTodo := m, false;
    if m.role == "assistant" && !recent && hasContent {
      if m.content.Blocks? {
        var pruned := PruneEachBlock(m.content.blocks);
        out := out.(content := Blocks(pruned));
      } else {
        out := out.(content := Str(Prune(contentStr)));
      }
    }
    if m.role == "assistant" && !recent {
      assert !hasContent && m.content.Blocks? ==> PruneBlocks(m.content.blocks) == m.content.blocks;
      out := out.(reasoningContent := None, reasoning := None);
    }
    if m.role == "tool" || m.role == "function" {
      isTodo := LooksLikeTodoList(contentStr);
      if !isTodo && !recent && hasContent && |contentStr| > 200 {
        if |contentStr| > KEEP + 50 {
          if m.content.Blocks? {
            var cut := CutFirstLongBlock(m.content.blocks);
            out := out.(content := Blocks(cut));
          } else {
            out := out.(content := Str(contentStr[..KEEP] + SUFFIX));
          }
        }
      }
      if !hasContent && m.content.Blocks? {
        NoTextNoBytes(m.content.blocks);
      }
    }
  }

  lemma {:induction false} NoTextNoBytes(blocks: seq<Block>)
    requires forall b :: b in blocks ==> !b.TextBlock?
    ensures BlockTexts(blocks) == ""
  {
    if |blocks| > 0 {
      NoTextNoBytes(blocks[..|blocks| - 1]);
    }
  }

  lemma RewriteByPosition(m: Message, recent: bool, position: nat)
    requires m.Msg?
    ensures Rewrite(m, recent, position) ==
            var first := Rewrite(m, recent, 1);
            if first.Msg? && IsTool(m) && !IsTodo(TextOf(m.content)) && position > 2 && !recent
            then first.(content := Str("")) else first
  {
  }

  lemma CounterStep(ms: seq<Message>, i: nat, lastToolName: string, count: nat)
    requires i < |ms| && CounterAt(ms, i, lastToolName, count)
    ensures ms[i].NotAnObject? ==> CounterAt(ms, i + 1, lastToolName, count)
    ensures ms[i].Msg? && !IsTool(ms[i]) ==> CounterAt(ms, i + 1, "", 0)
    ensures IsTool(ms[i]) ==>
              && RunPosition(ms, i) == (if ms[i].name == lastToolName && ms[i].name != "" then count + 1 else 1)
              && CounterAt(ms, i + 1, ms[i].name, RunPosition(ms, i))
  {
  }

  /** The rewriting loop, in place. */
  method CompressMessages(messages: array<Message>)
    modifies messages
    ensures messages[..] == Compressed(old(messages[..]))
  {
    hide Rewrite, RunPosition, CounterAt, IsTodo, TextOf, Compressed;
    ghost var ms := messages[..];
    var lastToolName, consecutiveToolCount := "", 0;
    var msgCount := messages.Length;
    NothingCounted(ms);
    for i := 0 to msgCount
      invariant |ms| == messages.Length
      invariant forall k :: 0 <= k < i ==> messages[k] == Rewrite(ms[k], k == |ms| - 1, RunPosition(ms, k))
      invariant forall k :: i <= k < msgCount ==> messages[k] == ms[k]
      invariant CounterAt(ms, i, lastToolName, consecutiveToolCount)
    {
      var msg := messages[i];
      CounterStep(ms, i, lastToolName, consecutiveToolCount);
      if msg.NotAnObject? {
        NotAnObjectIsKept(msg, i == |ms| - 1, RunPosition(ms, i));
        continue;
      }
      var isRecentMessage := i >= msgCount - 1;
      RewriteByPosition(msg, isRecentMessage, RunPosition(ms, i));
      var out, isTodo := RewriteContent(msg, isRecentMessage);
      if msg.role == "tool" || msg.role == "function" {
        if msg.name == lastToolName && msg.name != "" {
          consecutiveToolCount := consecutiveToolCount + 1;
          if !isTodo && consecutiveToolCount > 2 && !isRecentMessage {
            out := out.(content := Str(""));
          }
        } else {
          lastToolName := msg.name;
          consecutiveToolCount := 1;
        }
      } else {
        lastToolName := "";
        consecutiveToolCount := 0;
      }
      messages[i] := out;
    }
    AllRewritten(ms, messages[..]);
  }

  lemma NothingCounted(ms: seq<Message>)
    ensures CounterAt(ms, 0, "", 0)
  {
  }

  lemma AllRewritten(ms: seq<Message>, ns: seq<Message>)
    requires |ns| == |ms|
    requires forall k: nat :: k < |ms| ==> ns[k] == Rewrite(ms[k], k == |ms| - 1, RunPosition(ms, k))
    ensures ns == Compressed(ms)
  {
  }

  lemma NotAnObjectIsKept(m: Message, recent: bool, position: nat)
    requires m.NotAnObject?
    ensures Rewrite(m, recent, position) == m
  {
  }
}
