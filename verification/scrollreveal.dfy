/** The `flattenChildren` tokeniser of `components/ui/ScrollReveal.tsx`:
    text children are cut into words, other children are kept whole, and
    every item gets a key from one running counter. */
module ScrollReveal {
  import opened Seqs
  import opened Strings
  import opened Content

  datatype Item = Word(text: string, key: string) | Element(node: Node, key: string)

  /** An item before its key is assigned. */
  datatype Token = WordToken(text: string) | ElementToken(node: Node)

  /** A piece of a split survives when `word.trim()` is non-empty. */
  predicate IsWord(w: string) { !TrimsToEmpty(w) }

  /** The words of one text child: `child.split(" ")` without the pieces
      that trim to nothing. */
  function Words(s: string): seq<string> {
    Filter(Split(s, ' '), IsWord)
  }

  function WordTokens(words: seq<string>): (r: seq<Token>)
    ensures |r| == |words|
    ensures forall i :: 0 <= i < |words| ==> r[i] == WordToken(words[i])
  {
    seq(|words|, i requires 0 <= i < |words| => WordToken(words[i]))
  }

  /** The tokens one child contributes. */
  function ChildTokens(child: Node): seq<Token> {
    match child
    case Str(s) => WordTokens(Words(s))
    case Other(_) => [ElementToken(child)]
  }

  /** The tokens of all children, child after child. */
  function Tokens(children: seq<Node>): seq<Token> {
    if |children| == 0 then []
    else Tokens(children[..|children| - 1]) + ChildTokens(children[|children| - 1])
  }

  /** Item `k` gets key `w-k` or `e-k` by kind. */
  function KeyFor(t: Token, k: nat): string {
    (if t.WordToken? then "w-" else "e-") + Decimal(k)
  }

  function WithKey(t: Token, k: nat): Item {
    match t
    case WordToken(w) => Word(w, KeyFor(t, k))
    case ElementToken(n) => Element(n, KeyFor(t, k))
  }

  /** Tokens numbered by one counter from zero. */
  function Keyed(ts: seq<Token>): (r: seq<Item>)
    ensures |r| == |ts|
  {
    seq(|ts|, k requires 0 <= k < |ts| => WithKey(ts[k], k))
  }

  lemma KeyedSnoc(ts: seq<Token>, t: Token)
    ensures Keyed(ts + [t]) == Keyed(ts) + [WithKey(t, |ts|)]
  {
  }

  /** Scanning one more piece adds its token when it is a word. */
  lemma WordTokensSnoc(pieces: seq<string>, w: nat)
    requires w < |pieces|
    ensures WordTokens(Filter(pieces[..w + 1], IsWord)) ==
            WordTokens(Filter(pieces[..w], IsWord)) +
            (if IsWord(pieces[w]) then [WordToken(pieces[w])] else [])
  {
    assert pieces[..w + 1] == pieces[..w] + [pieces[w]];
    FilterAppend(pieces[..w], [pieces[w]], IsWord);
    var a, b := Filter(pieces[..w], IsWord), Filter([pieces[w]], IsWord);
    assert b == if IsWord(pieces[w]) then [pieces[w]] else [];
    assert WordTokens(a + b) == WordTokens(a) + WordTokens(b);
  }

  /** The reference result: all children's tokens, keyed in order. */
  function Flatten(children: seq<Node>): seq<Item> {
    Keyed(Tokens(children))
  }

  /** The inner `child.split(" ").forEach(...)` of `flattenChildren`: push
      each surviving word with the next key. */
  method PushWords(items: seq<Item>, ghost done: seq<Token>, s: string)
    returns (result: seq<Item>)
    requires items == Keyed(done)
    ensures result == Keyed(done + WordTokens(Words(s)))
  {
    result := items;
    var index := |items|;
    var pieces := Split(s, ' ');
    var w := 0;
    while w < |pieces|
      invariant w <= |pieces|
      invariant result == Keyed(done + WordTokens(Filter(pieces[..w], IsWord)))
      invariant index == |result|
    {
      ghost var before := done + WordTokens(Filter(pieces[..w], IsWord));
      WordTokensSnoc(pieces, w);
      if IsWord(pieces[w]) {
        KeyedSnoc(before, WordToken(pieces[w]));
        assert before + [WordToken(pieces[w])] ==
               done + WordTokens(Filter(pieces[..w + 1], IsWord));
        result := result + [Word(pieces[w], "w-" + Decimal(index))];
        index := index + 1;
      } else {
        assert before == done + WordTokens(Filter(pieces[..w + 1], IsWord));
      }
      w := w + 1;
    }
    assert pieces[..w] == pieces;
  }

  /** `flattenChildren(children)`, as the source computes it: one pass over
      the children with a counter that advances once per pushed item. */
  method FlattenChildren(children: seq<Node>) returns (items: seq<Item>)
    ensures items == Flatten(children)
  {
    items := [];
    var c := 0;
    while c < |children|
      invariant c <= |children|
      invariant items == Keyed(Tokens(children[..c]))
    {
      assert children[..c + 1][..c] == children[..c];
      ghost var done := Tokens(children[..c]);
      match children[c] {
        case Str(s) =>
          items := PushWords(items, done, s);
        case Other(_) =>
          KeyedSnoc(done, ElementToken(children[c]));
          items := items + [Element(children[c], "e-" + Decimal(|items|))];
      }
      c := c + 1;
    }
    assert children[..c] == children;
  }

  // ---------------------------------------------------------------- Properties

  /** Item `k` is keyed `w-k` when it is a word and `e-k` when it is an
      element: the counter advances once per emitted item. */
  lemma KeysCountItems(children: seq<Node>, k: nat)
    requires k < |Flatten(children)|
    ensures var item := Flatten(children)[k];
            item.key == (if item.Word? then "w-" else "e-") + Decimal(k)
  {
  }

  lemma DistinctSuffixes(p: string, q: string, a: string, b: string)
    requires |p| == |q| && a != b
    ensures p + a != q + b
  {
    assert (p + a)[|p|..] == a;
    assert (q + b)[|q|..] == b;
  }

  /** No two items share a key, so React can tell them apart. */
  lemma {:induction false} KeysUnique(children: seq<Node>)
    ensures var items := Flatten(children);
            forall i, j :: 0 <= i < j < |items| ==> items[i].key != items[j].key
  {
    var items := Flatten(children);
    forall i, j | 0 <= i < j < |items|
      ensures items[i].key != items[j].key
    {
      DecimalInjective(i, j);
      var p := if items[i].Word? then "w-" else "e-";
      var q := if items[j].Word? then "w-" else "e-";
      DistinctSuffixes(p, q, Decimal(i), Decimal(j));
    }
  }

  /** Every word a text child contributes is one of its space-separated
      pieces that does not trim to nothing. */
  lemma {:induction false} WordTokensClean(children: seq<Node>)
    ensures forall t :: t in Tokens(children) && t.WordToken? ==>
              IsWord(t.text) && ' ' !in t.text
  {
    if |children| > 0 {
      var init := children[..|children| - 1];
      var last := children[|children| - 1];
      WordTokensClean(init);
      match last
      case Str(s) =>
        forall t | t in ChildTokens(last) && t.WordToken?
          ensures IsWord(t.text) && ' ' !in t.text
        {
          var ws := Words(s);
          var i :| 0 <= i < |ws| && WordTokens(ws)[i] == t;
          assert ws[i] in Split(s, ' ');
        }
      case Other(_) =>
    }
  }

  /** Word items are never empty, never white space only, and hold no
      space. */
  lemma WordItemsClean(children: seq<Node>)
    ensures forall item :: item in Flatten(children) && item.Word? ==>
              |item.text| > 0 && !TrimsToEmpty(item.text) && ' ' !in item.text
  {
    WordTokensClean(children);
    var ts := Tokens(children);
    forall item | item in Flatten(children) && item.Word?
      ensures |item.text| > 0 && !TrimsToEmpty(item.text) && ' ' !in item.text
    {
      var k :| 0 <= k < |ts| && Flatten(children)[k] == item;
      assert ts[k] in ts;
    }
  }

  /** The nodes of the element items, in order. */
  function ElementNodes(items: seq<Item>): seq<Node> {
    if |items| == 0 then []
    else ElementNodes(items[..|items| - 1]) +
         (if items[|items| - 1].Element? then [items[|items| - 1].node] else [])
  }

  /** The children that are not strings, in order. */
  function NonStrings(children: seq<Node>): seq<Node> {
    if |children| == 0 then []
    else NonStrings(children[..|children| - 1]) +
         (if children[|children| - 1].Other? then [children[|children| - 1]] else [])
  }

  function TokenElements(ts: seq<Token>): seq<Node> {
    if |ts| == 0 then []
    else TokenElements(ts[..|ts| - 1]) +
         (if ts[|ts| - 1].ElementToken? then [ts[|ts| - 1].node] else [])
  }

  lemma {:induction false} KeyedElements(ts: seq<Token>)
    ensures ElementNodes(Keyed(ts)) == TokenElements(ts)
  {
    if |ts| > 0 {
      var init := ts[..|ts| - 1];
      KeyedElements(init);
      assert ts == init + [ts[|ts| - 1]];
      KeyedSnoc(init, ts[|ts| - 1]);
      assert Keyed(ts)[..|ts| - 1] == Keyed(init);
    }
  }

  lemma {:induction false} TokenElementsAppend(a: seq<Token>, b: seq<Token>)
    ensures TokenElements(a + b) == TokenElements(a) + TokenElements(b)
  {
    if |b| > 0 {
      var init := b[..|b| - 1];
      TokenElementsAppend(a, init);
      assert (a + b)[..|a + b| - 1] == a + init;
    } else {
      assert a + b == a;
    }
  }

  lemma {:induction false} WordTokensNoElements(ws: seq<string>)
    ensures TokenElements(WordTokens(ws)) == []
  {
    if |ws| > 0 {
      WordTokensNoElements(ws[..|ws| - 1]);
      assert WordTokens(ws)[..|ws| - 1] == WordTokens(ws[..|ws| - 1]);
    }
  }

  /** Each non-string child becomes exactly one element item, and the element
      items follow the children's order. */
  lemma {:induction false} ElementsFollowChildren(children: seq<Node>)
    ensures ElementNodes(Flatten(children)) == NonStrings(children)
  {
    KeyedElements(Tokens(children));
    TokensElements(children);
  }

  lemma {:induction false} TokensElements(children: seq<Node>)
    ensures TokenElements(Tokens(children)) == NonStrings(children)
  {
    if |children| > 0 {
      var init := children[..|children| - 1];
      var last := children[|children| - 1];
      TokensElements(init);
      TokenElementsAppend(Tokens(init), ChildTokens(last));
      match last
      case Str(s) => WordTokensNoElements(Words(s));
      case Other(_) => assert TokenElements([ElementToken(last)]) == [last];
    }
  }

  /** A lone text child yields its words in order, keyed `w-0`, `w-1`, ... */
  lemma SingleTextChild(s: string)
    ensures |Flatten([Str(s)])| == |Words(s)|
    ensures forall k :: 0 <= k < |Words(s)| ==>
              Flatten([Str(s)])[k] == Word(Words(s)[k], "w-" + Decimal(k))
  {
    assert [Str(s)][..0] == [];
    assert Tokens([Str(s)]) == WordTokens(Words(s));
  }
}
