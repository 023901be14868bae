/**
 * Chain selection in `main`: the user's comma-separated list is lower-cased and
 * split on commas; each entry is stripped, an entry that is not a key of the
 * chain table is skipped with a warning, and every other entry is processed,
 * in input order and duplicates included.
 */
module Selection {
  import opened Common
  import opened Chains
  import opened Text

  /** What the loop makes of one entry of the list. */
  datatype Entry = Known(chain: Chain) | Unknown(name: string)

  /** The raw comma-separated pieces of the user's input line. */
  function Pieces(line: string): (pieces: seq<string>)
    ensures |pieces| >= 1
    ensures forall k | 0 <= k < |pieces| :: ',' !in pieces[k]
    ensures Join(pieces, ',') == Lower(line)
  {
    Split(Lower(line), ',')
  }

  /** One piece, stripped and looked up in the chain table. */
  function Classify(piece: string): (e: Entry)
    ensures e.Known? <==> Lookup(Strip(piece)).Some?
    ensures e.Unknown? ==> e.name == Strip(piece)
  {
    var name := Strip(piece);
    match Lookup(name)
    case Some(c) => Known(c)
    case None => Unknown(name)
  }

  /** The classification of every piece, position by position. */
  function Entries(pieces: seq<string>): (es: seq<Entry>)
    ensures |es| == |pieces|
    ensures forall k | 0 <= k < |pieces| :: es[k] == Classify(pieces[k])
    ensures forall k, c | 0 <= k < |pieces| :: es[k] == Known(c) <==> Strip(pieces[k]) == Name(c)
    ensures forall k | 0 <= k < |pieces| :: es[k].Unknown? <==> Lookup(Strip(pieces[k])).None?
  {
    assert forall k, c | 0 <= k < |pieces| :: Classify(pieces[k]) == Known(c) <==> Strip(pieces[k]) == Name(c) by {
      forall k, c | 0 <= k < |pieces|
        ensures Classify(pieces[k]) == Known(c) <==> Strip(pieces[k]) == Name(c)
      {
        ClassifyExact(pieces[k], c);
      }
    }
    seq(|pieces|, k requires 0 <= k < |pieces| => Classify(pieces[k]))
  }

  /** A piece is classified as chain c exactly when, stripped, it is c's name. */
  lemma ClassifyExact(piece: string, c: Chain)
    ensures Classify(piece) == Known(c) <==> Strip(piece) == Name(c)
  {
    LookupExact(Strip(piece), c);
  }

  /** The chains processed, in order. */
  function KnownChains(es: seq<Entry>): seq<Chain>
  {
    if es == [] then []
    else
      var last := es[|es| - 1];
      KnownChains(es[..|es| - 1]) + (if last.Known? then [last.chain] else [])
  }

  /** The stripped entries skipped with a warning, in order. */
  function UnknownNames(es: seq<Entry>): seq<string>
  {
    if es == [] then []
    else
      var last := es[|es| - 1];
      UnknownNames(es[..|es| - 1]) + (if last.Unknown? then [last.name] else [])
  }

  /**
   * The selection loop. `selected` lists the chains handed on to a fetcher and
   * `skipped` the entries reported as unknown, each in input order.
   */
  method SelectChains(line: string) returns (selected: seq<Chain>, skipped: seq<string>)
    ensures selected == KnownChains(Entries(Pieces(line)))
    ensures skipped == UnknownNames(Entries(Pieces(line)))
    ensures |selected| + |skipped| == |Pieces(line)|
    ensures forall c :: c in selected <==>
      exists k | 0 <= k < |Pieces(line)| :: Strip(Pieces(line)[k]) == Name(c)
  {
    var chains := Pieces(line);
    ghost var es := Entries(chains);
    selected, skipped := [], [];
    for i := 0 to |chains|
      invariant selected == KnownChains(es[..i])
      invariant skipped == UnknownNames(es[..i])
    {
      SelectionStep(es, i);
      var chain := Strip(chains[i]);
      var known := Lookup(chain);
      if known.None? {
        skipped := skipped + [chain];
        continue;
      }
      selected := selected + [known.value];
    }
    assert es[..|chains|] == es;
    SelectionFacts(chains);
  }

  /** What the user sees of a selection: counts and membership. */
  lemma SelectionFacts(pieces: seq<string>)
    ensures |KnownChains(Entries(pieces))| + |UnknownNames(Entries(pieces))| == |pieces|
    ensures forall c :: c in KnownChains(Entries(pieces)) <==>
      exists k | 0 <= k < |pieces| :: Strip(pieces[k]) == Name(c)
  {
    SelectionCount(Entries(pieces));
    forall c ensures c in KnownChains(Entries(pieces)) <==>
      exists k | 0 <= k < |pieces| :: Strip(pieces[k]) == Name(c)
    {
      PiecesMembership(pieces, c);
    }
  }

  /** Extending the processed prefix by one entry. */
  lemma SelectionStep(es: seq<Entry>, i: nat)
    requires i < |es|
    ensures KnownChains(es[..i + 1]) == KnownChains(es[..i]) + (if es[i].Known? then [es[i].chain] else [])
    ensures UnknownNames(es[..i + 1]) == UnknownNames(es[..i]) + (if es[i].Unknown? then [es[i].name] else [])
  {
    assert es[..i + 1][..i] == es[..i];
  }

  /** Every entry is either processed or skipped, never both or neither. */
  lemma {:induction false} SelectionCount(es: seq<Entry>)
    ensures |KnownChains(es)| + |UnknownNames(es)| == |es|
  {
    if es != [] {
      SelectionCount(es[..|es| - 1]);
    }
  }

  /** A chain is processed exactly when one of the entries is that chain. */
  lemma {:induction false} KnownChainsMembership(es: seq<Entry>, c: Chain)
    ensures c in KnownChains(es) <==> Known(c) in es
  {
    if es != [] {
      var init := es[..|es| - 1];
      KnownChainsMembership(init, c);
      assert es == init + [es[|es| - 1]];
    }
  }

  /** A chain is processed exactly when some stripped piece is its name. */
  lemma PiecesMembership(pieces: seq<string>, c: Chain)
    ensures c in KnownChains(Entries(pieces)) <==>
      exists k | 0 <= k < |pieces| :: Strip(pieces[k]) == Name(c)
  {
    var es := Entries(pieces);
    KnownChainsMembership(es, c);
    forall k | 0 <= k < |pieces|
      ensures es[k] == Known(c) <==> Strip(pieces[k]) == Name(c)
    {
      LookupExact(Strip(pieces[k]), c);
    }
  }

  /**
   * Selection works entry by entry: the selection of a concatenation is the
   * concatenation of the selections, so no entry influences another.
   */
  lemma SelectionAppend(a: seq<Entry>, b: seq<Entry>)
    ensures KnownChains(a + b) == KnownChains(a) + KnownChains(b)
    ensures UnknownNames(a + b) == UnknownNames(a) + UnknownNames(b)
  {
    KnownAppend(a, b);
    UnknownAppend(a, b);
  }

  lemma {:induction false} KnownAppend(a: seq<Entry>, b: seq<Entry>)
    ensures KnownChains(a + b) == KnownChains(a) + KnownChains(b)
  {
    if b == [] {
      assert a + b == a;
    } else {
      var init, last := b[..|b| - 1], b[|b| - 1];
      assert (a + b)[..|a + b| - 1] == a + init;
      assert (a + b)[|a + b| - 1] == last;
      KnownAppend(a, init);
    }
  }

  lemma {:induction false} UnknownAppend(a: seq<Entry>, b: seq<Entry>)
    ensures UnknownNames(a + b) == UnknownNames(a) + UnknownNames(b)
  {
    if b == [] {
      assert a + b == a;
    } else {
      var init, last := b[..|b| - 1], b[|b| - 1];
      assert (a + b)[..|a + b| - 1] == a + init;
      assert (a + b)[|a + b| - 1] == last;
      UnknownAppend(a, init);
    }
  }

  /**
   * An unknown entry is only reported: the entries around it are processed as
   * if it were absent.
   */
  lemma UnknownEntryIsSkipped(a: seq<Entry>, name: string, b: seq<Entry>)
    ensures KnownChains(a + [Unknown(name)] + b) == KnownChains(a + b)
    ensures UnknownNames(a + [Unknown(name)] + b) == UnknownNames(a) + [name] + UnknownNames(b)
  {
    var u := [Unknown(name)];
    SelectionAppend(a + u, b);
    SelectionAppend(a, u);
    SelectionAppend(a, b);
    assert u[..0] == [];
  }

  /** Every chain's own name, typed as it is, selects that chain. */
  lemma ClassifyName(c: Chain)
    ensures Classify(Name(c)) == Known(c)
  {
    StripUnpadded(Name(c));
    LookupName(c);
  }

  /** A line of two entries gives the two entries, classified one by one. */
  lemma TwoEntries(a: string, b: string)
    requires ',' !in a && ',' !in b
    ensures Entries(Pieces(a + [','] + b)) == [Classify(Lower(a)), Classify(Lower(b))]
  {
    var line := a + [','] + b;
    var pieces := [Lower(a), Lower(b)];
    assert Lower(line) == Lower(a) + [','] + Lower(b);
    assert ',' !in Lower(a);
    assert ',' !in Lower(b);
    assert Join(pieces, ',') == Lower(line);
    SplitJoin(pieces, ',');
  }

  /** Selection from two classified entries. */
  lemma SelectTwo(x: Entry, y: Entry)
    ensures KnownChains([x, y]) == (if x.Known? then [x.chain] else []) + (if y.Known? then [y.chain] else [])
    ensures UnknownNames([x, y]) == (if x.Unknown? then [x.name] else []) + (if y.Unknown? then [y.name] else [])
  {
    assert [x, y][..1] == [x];
    assert [x][..0] == [];
    assert KnownChains([x]) == (if x.Known? then [x.chain] else []);
    assert UnknownNames([x]) == (if x.Unknown? then [x.name] else []);
  }

  lemma UnknownChainIsUnknown()
    ensures Classify("unknownchain") == Unknown("unknownchain")
  {
    var name := "unknownchain";
    assert |name| == 12 && name[0] == 'u' && name[11] == 'n';
    StripUnpadded(name);
    assert Lookup(name) == None;
  }

  /** The chain line `ethereum,unknownchain`: Ethereum is processed and the other entry skipped. */
  lemma EthereumAndUnknown()
    ensures KnownChains(Entries(Pieces("ethereum,unknownchain"))) == [Ethereum]
    ensures UnknownNames(Entries(Pieces("ethereum,unknownchain"))) == ["unknownchain"]
  {
    assert "ethereum" + [','] + "unknownchain" == "ethereum,unknownchain";
    assert Lower("ethereum") == Name(Ethereum);
    assert Lower("unknownchain") == "unknownchain";
    TwoEntries("ethereum", "unknownchain");
    ClassifyName(Ethereum);
    UnknownChainIsUnknown();
    SelectTwo(Known(Ethereum), Unknown("unknownchain"));
  }

  /** No chain's name contains the separator. */
  lemma NameHasNoComma(c: Chain)
    ensures ',' !in Name(c)
  {
  }

  /**
   * Selection ignores case: a line that lower-cases to a chain's name selects
   * exactly that chain and skips nothing, however its letters are written.
   */
  lemma SelectionIgnoresCase(line: string, c: Chain)
    requires Lower(line) == Name(c)
    ensures KnownChains(Entries(Pieces(line))) == [c]
    ensures UnknownNames(Entries(Pieces(line))) == []
  {
    NameHasNoComma(c);
    SplitJoin([Name(c)], ',');
    assert Pieces(line) == [Name(c)];
    ClassifyName(c);
    assert Entries(Pieces(line)) == [Known(c)];
    assert [Known(c)][..0] == [];
  }

  /** The mixed-case line `EtHeReUm` selects Ethereum. */
  lemma MixedCaseEthereum()
    ensures KnownChains(Entries(Pieces("EtHeReUm"))) == [Ethereum]
  {
    assert Lower("EtHeReUm") == "ethereum";
    SelectionIgnoresCase("EtHeReUm", Ethereum);
  }

  /** White space around a chain's name does not matter. */
  lemma ClassifyPadded(left: string, c: Chain, right: string)
    requires AllSpace(left) && AllSpace(right)
    ensures Classify(left + Name(c) + right) == Known(c)
  {
    StripPadding(left, Name(c), right);
    LookupName(c);
  }
}
