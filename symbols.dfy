/** Symbol locator: the chain of document symbols that enclose a cursor position,
    outermost first, as `findSymbolHierarchy` in src/extension.ts computes it. */
module SymbolLocator {
  import opened Wrappers

  /** A point in a document: zero-based line and character. */
  datatype Position = Position(line: nat, character: nat)

  /** Lexicographic order on positions (VS Code's `Position.isBeforeOrEqual`). */
  predicate BeforeOrEqual(a: Position, b: Position) {
    a.line < b.line || (a.line == b.line && a.character <= b.character)
  }

  /** A region of a document given by its start and end positions. */
  datatype Range = Range(start: Position, end: Position)

  /** VS Code's `Range.contains` for a position: closed on both ends, so a position
      exactly at the start or at the end of the range is inside it. Only a
      normalized range, whose start is not after its end, contains anything. */
  predicate Contains(r: Range, p: Position): (inside: bool)
    ensures inside ==> BeforeOrEqual(r.start, r.end)
  {
    BeforeOrEqual(r.start, p) && BeforeOrEqual(p, r.end)
  }

  /** A document symbol as the host's symbol provider reports it. */
  datatype Symbol = Symbol(name: string, range: Range, children: seq<Symbol>)

  /** The index of the first symbol of `list` whose range contains `p`, if any. */
  function FirstContaining(list: seq<Symbol>, p: Position): (r: Option<nat>)
    ensures r.Some? ==> r.value < |list| && Contains(list[r.value].range, p)
    ensures r.Some? ==> forall j :: 0 <= j < r.value ==> !Contains(list[j].range, p)
    ensures r.None? ==> forall j :: 0 <= j < |list| ==> !Contains(list[j].range, p)
  {
    if list == [] then None
    else if Contains(list[0].range, p) then Some(0)
    else match FirstContaining(list[1..], p)
      case None => None
      case Some(i) => Some(i + 1)
  }

  /** The chain `searchSymbols` pushes: the first symbol of `list` containing `p`,
      followed by the chain found among that symbol's children. */
  function Hierarchy(list: seq<Symbol>, p: Position): (chain: seq<Symbol>)
    ensures chain != [] ==> chain[0] in list && Contains(chain[0].range, p)
    decreases list
  {
    match FirstContaining(list, p)
    case None => []
    case Some(i) => [list[i]] + Hierarchy(list[i].children, p)
  }

  /** Reference definition of a first-match chain, stated element by element:
      `chain` is empty exactly when no symbol of `list` contains `p`; otherwise its
      head is the earliest symbol of `list` containing `p` and its tail is a
      first-match chain of that symbol's children. */
  ghost predicate IsFirstMatchChain(list: seq<Symbol>, p: Position, chain: seq<Symbol>)
    decreases chain
  {
    if chain == [] then
      forall j :: 0 <= j < |list| ==> !Contains(list[j].range, p)
    else
      exists i :: 0 <= i < |list| && list[i] == chain[0]
        && Contains(list[i].range, p)
        && (forall j :: 0 <= j < i ==> !Contains(list[j].range, p))
        && IsFirstMatchChain(list[i].children, p, chain[1..])
  }

  /** Every symbol of the chain contains the position, and each one after the first
      is a child of the one before it. */
  lemma {:induction false} HierarchyNested(list: seq<Symbol>, p: Position)
    ensures forall k :: 0 <= k < |Hierarchy(list, p)| ==> Contains(Hierarchy(list, p)[k].range, p)
    ensures Hierarchy(list, p) != [] ==> Hierarchy(list, p)[0] in list
    ensures forall k :: 0 <= k < |Hierarchy(list, p)| - 1 ==>
              Hierarchy(list, p)[k + 1] in Hierarchy(list, p)[k].children
    decreases list
  {
    match FirstContaining(list, p)
    case None =>
    case Some(i) =>
      var tail := Hierarchy(list[i].children, p);
      HierarchyNested(list[i].children, p);
      assert Hierarchy(list, p) == [list[i]] + tail;
  }

  /** The chain is empty exactly when no top-level symbol contains the position. */
  lemma HierarchyEmptyIff(list: seq<Symbol>, p: Position)
    ensures Hierarchy(list, p) == [] <==> forall j :: 0 <= j < |list| ==> !Contains(list[j].range, p)
  {
  }

  /** `Hierarchy` meets the reference definition, and it is the only chain that does:
      first match wins at every level. */
  lemma {:induction false} HierarchyIsFirstMatchChain(list: seq<Symbol>, p: Position, chain: seq<Symbol>)
    ensures IsFirstMatchChain(list, p, chain) <==> chain == Hierarchy(list, p)
    decreases chain
  {
    match FirstContaining(list, p)
    case None =>
    case Some(i) =>
      assert Hierarchy(list, p) == [list[i]] + Hierarchy(list[i].children, p);
      if chain == [] {
      } else {
        HierarchyIsFirstMatchChain(list[i].children, p, chain[1..]);
        if IsFirstMatchChain(list, p, chain) {
          var i' :| 0 <= i' < |list| && list[i'] == chain[0]
            && Contains(list[i'].range, p)
            && (forall j :: 0 <= j < i' ==> !Contains(list[j].range, p))
            && IsFirstMatchChain(list[i'].children, p, chain[1..]);
          assert i' == i;
        }
        if chain == Hierarchy(list, p) {
          assert chain[0] == list[i] && chain[1..] == Hierarchy(list[i].children, p);
        }
      }
  }

  /** When the symbol at `i` is the first to contain `p`, the chain is that symbol
      followed by the chain of its children. */
  lemma HierarchyAtFirst(list: seq<Symbol>, i: nat, p: Position)
    requires i < |list| && Contains(list[i].range, p)
    requires forall j :: 0 <= j < i ==> !Contains(list[j].range, p)
    ensures Hierarchy(list, p) == [list[i]] + Hierarchy(list[i].children, p)
  {
    assert FirstContaining(list, p) == Some(i);
  }

  /** Siblings after the first match are never inspected: replacing everything after
      the first containing symbol leaves the chain unchanged. */
  lemma LaterSiblingsIgnored(list: seq<Symbol>, i: nat, rest: seq<Symbol>, p: Position)
    requires i < |list| && Contains(list[i].range, p)
    requires forall j :: 0 <= j < i ==> !Contains(list[j].range, p)
    ensures Hierarchy(list[..i + 1] + rest, p) == Hierarchy(list, p)
  {
    var other := list[..i + 1] + rest;
    assert FirstContaining(other, p) == Some(i) by {
      assert other[i] == list[i];
      assert forall j :: 0 <= j < i ==> other[j] == list[j];
    }
  }

  /** A matched symbol stays in the chain even when none of its children contains the
      position: the chain then ends with it. */
  lemma MatchWithoutChildMatchEnds(list: seq<Symbol>, i: nat, p: Position)
    requires i < |list| && Contains(list[i].range, p)
    requires forall j :: 0 <= j < i ==> !Contains(list[j].range, p)
    requires forall c :: c in list[i].children ==> !Contains(c.range, p)
    ensures Hierarchy(list, p) == [list[i]]
  {
    assert Hierarchy(list[i].children, p) == [] by {
      var kids := list[i].children;
      assert forall j :: 0 <= j < |kids| ==> kids[j] in kids;
    }
  }

  /** The descent stops exactly when no child of the innermost symbol contains the
      position. */
  lemma {:induction false} HierarchyMaximal(list: seq<Symbol>, p: Position)
    requires Hierarchy(list, p) != []
    ensures var h := Hierarchy(list, p);
      forall c :: c in h[|h| - 1].children ==> !Contains(c.range, p)
    decreases list
  {
    match FirstContaining(list, p)
    case Some(i) =>
      var tail := Hierarchy(list[i].children, p);
      assert Hierarchy(list, p) == [list[i]] + tail;
      if tail != [] {
        HierarchyMaximal(list[i].children, p);
        assert Hierarchy(list, p)[|Hierarchy(list, p)| - 1] == tail[|tail| - 1];
      }
  }

  /** Nested symbols `a` containing `b` containing `c`, with the position inside
      `c`, give the chain `[a, b, c]`. */
  lemma NestedChainExample(a: Symbol, b: Symbol, c: Symbol, p: Position)
    requires a.children == [b] && b.children == [c] && c.children == []
    requires Contains(a.range, p) && Contains(b.range, p) && Contains(c.range, p)
    ensures Hierarchy([a], p) == [a, b, c]
  {
    assert Hierarchy([c], p) == [c] + Hierarchy([], p);
    assert Hierarchy([b], p) == [b] + Hierarchy([c], p);
    assert Hierarchy([a], p) == [a] + Hierarchy([b], p);
  }

  /** A position exactly at the end of a range is inside it. */
  lemma ContainsEnd(r: Range)
    requires BeforeOrEqual(r.start, r.end)
    ensures Contains(r, r.end) && Contains(r, r.start)
  {
  }

  /** The state of `findSymbolHierarchy`: the `hierarchy` array that the nested
      `searchSymbols` pushes onto, and the position it searches for. */
  class HierarchySearch {
    const position: Position
    var hierarchy: seq<Symbol>

    constructor (position: Position)
      ensures this.position == position && hierarchy == []
    {
      this.position := position;
      hierarchy := [];
    }

    /** `searchSymbols`: scans `symbolList` in order; at the first symbol containing
        the position it pushes that symbol, searches its children and returns true. */
    method SearchSymbols(symbolList: seq<Symbol>) returns (found: bool)
      modifies this
      ensures hierarchy == old(hierarchy) + Hierarchy(symbolList, position)
      ensures found <==> Hierarchy(symbolList, position) != []
      decreases symbolList
    {
      for i := 0 to |symbolList|
        invariant hierarchy == old(hierarchy)
        invariant forall j :: 0 <= j < i ==> !Contains(symbolList[j].range, position)
      {
        var symbol := symbolList[i];
        if Contains(symbol.range, position) {
          hierarchy := hierarchy + [symbol];
          if |symbol.children| > 0 {
            var _ := SearchSymbols(symbol.children);
          }
          assert hierarchy == old(hierarchy) + [symbol] + Hierarchy(symbol.children, position);
          HierarchyAtFirst(symbolList, i, position);
          return true;
        }
      }
      return false;
    }
  }

  /** `findSymbolHierarchy`: the chain of symbols enclosing `position`, outermost
      first. */
  method FindSymbolHierarchy(symbols: seq<Symbol>, position: Position) returns (chain: seq<Symbol>)
    ensures chain == Hierarchy(symbols, position)
    ensures IsFirstMatchChain(symbols, position, chain)
  {
    var search := new HierarchySearch(position);
    var _ := search.SearchSymbols(symbols);
    chain := search.hierarchy;
    HierarchyIsFirstMatchChain(symbols, position, chain);
  }
}
