/** The extraction engine: from an opened EPUB package to one plain-text
    string per spine entry.

    The package reader, the XML parser and the network are outside the
    model. A package is given as a `Book` value (its title, table-of-
    contents tree, spine, metadata groups and item contents), and the
    parser's "all text content of the document" query is the parameter
    `textOf`, which may fail with `XmlSyntaxError`. */
module Epub2txt {
  import opened Text
  import opened Results

  // ---------------------------------------------------------------------
  // Data model
  // ---------------------------------------------------------------------

  /** An attribute of a table-of-contents object: Python raises
      `AttributeError` when it is `Missing`. */
  datatype Attr = Missing | Present(value: string)

  /** A leaf of the table of contents (a link or a section heading). */
  datatype TocEntry = TocEntry(title: Attr, href: Attr, uid: Attr)

  /** The table-of-contents tree: leaves, and nested lists or tuples of
      further nodes. A string inside the tree is a leaf too: it is never
      taken apart character by character. */
  datatype TocNode = Leaf(entry: TocEntry) | Nested(children: seq<TocNode>)

  /** One field of a metadata group: its name and its primary values. */
  datatype MetaField = MetaField(name: string, values: seq<string>)

  type MetaGroup = seq<MetaField>

  /** An opened package. `spine` holds `(idref, linear)` pairs in reading
      order; `items` maps item ids to their (decoded) content. */
  datatype Book = Book(
    title: string,
    toc: seq<TocNode>,
    spine: seq<(string, string)>,
    metadata: seq<MetaGroup>,
    items: map<string, string>)

  /** What a call publishes besides its return value: the attributes
      `epub2txt` sets on its own function object. */
  datatype Attrs = Attrs(
    title: string,
    toc: seq<(string, string)>,
    tocTitles: seq<string>,
    tocHrefs: seq<string>,
    tocUids: seq<string>,
    spine: seq<string>,
    metadata: seq<MetaGroup>)

  /** The attributes before the first call: all empty. */
  const InitialAttrs := Attrs("", [], [], [], [], [], [])

  /** The return value: the list of chapter texts, or their join. */
  datatype Output = Texts(texts: seq<string>) | Joined(text: string)

  /** The XML parser followed by the query for the document's string value
      (the concatenation of all its text). */
  type Parser = string -> Result<string>

  // ---------------------------------------------------------------------
  // Table of contents
  // ---------------------------------------------------------------------

  /** `flatten_iter`: the leaves of the forest, depth first, left to right. */
  function Flatten(items: seq<TocNode>): seq<TocEntry>
    decreases items
  {
    if items == [] then []
    else
      (match items[0]
         case Leaf(e) => [e]
         case Nested(cs) => Flatten(cs))
      + Flatten(items[1..])
  }

  /** `e` is a leaf somewhere below `n`. */
  predicate HasLeaf(n: TocNode, e: TocEntry)
    decreases n
  {
    match n
    case Leaf(e') => e' == e
    case Nested(cs) => exists i :: 0 <= i < |cs| && HasLeaf(cs[i], e)
  }

  /** Flattening a concatenation flattens each part. */
  lemma {:induction false} FlattenAppend(a: seq<TocNode>, b: seq<TocNode>)
    ensures Flatten(a + b) == Flatten(a) + Flatten(b)
    decreases |a|
  {
    if a == [] {
      assert a + b == b;
    } else {
      assert (a + b)[0] == a[0];
      assert (a + b)[1..] == a[1..] + b;
      FlattenAppend(a[1..], b);
    }
  }

  /** The flattened list holds exactly the leaves of the forest. */
  lemma {:induction false} FlattenLeaves(items: seq<TocNode>, e: TocEntry)
    ensures e in Flatten(items) <==> exists i :: 0 <= i < |items| && HasLeaf(items[i], e)
    decreases items
  {
    if items != [] {
      var head := match items[0] case Leaf(x) => [x] case Nested(cs) => Flatten(cs);
      assert Flatten(items) == head + Flatten(items[1..]);
      FlattenLeaves(items[1..], e);
      match items[0]
      case Leaf(x) =>
      case Nested(cs) =>
        FlattenLeaves(cs, e);
      if e in Flatten(items[1..]) {
        var i :| 0 <= i < |items[1..]| && HasLeaf(items[1..][i], e);
        assert HasLeaf(items[i + 1], e);
      }
      if i :| 0 <= i < |items| && HasLeaf(items[i], e) {
        if i > 0 {
          assert HasLeaf(items[1..][i - 1], e);
        }
      }
    }
  }

  /** A list of leaves is already flat. */
  lemma {:induction false} FlattenFlat(es: seq<TocEntry>)
    ensures Flatten(seq(|es|, k requires 0 <= k < |es| => Leaf(es[k]))) == es
    decreases |es|
  {
    var ns := seq(|es|, k requires 0 <= k < |es| => Leaf(es[k]));
    if es != [] {
      FlattenFlat(es[1..]);
      assert ns[1..] == seq(|es[1..]|, k requires 0 <= k < |es[1..]| => Leaf(es[1..][k]));
      assert es == [es[0]] + es[1..];
    }
  }

  /** One attribute read from every entry: the values, or `None` when some
      entry lacks the attribute (the comprehension raises). */
  function Values(xs: seq<Attr>): (r: Option<seq<string>>)
    ensures r.Some? <==> forall k :: 0 <= k < |xs| ==> xs[k].Present?
    ensures r.Some? ==> |r.value| == |xs| && forall k :: 0 <= k < |xs| ==> r.value[k] == xs[k].value
  {
    if xs == [] then Some([])
    else if xs[0].Missing? then None
    else
      match Values(xs[1..])
      case None => None
      case Some(vs) => Some([xs[0].value] + vs)
  }

  function Titles(es: seq<TocEntry>): seq<Attr> {
    seq(|es|, k requires 0 <= k < |es| => es[k].title)
  }

  function Hrefs(es: seq<TocEntry>): seq<Attr> {
    seq(|es|, k requires 0 <= k < |es| => es[k].href)
  }

  function Uids(es: seq<TocEntry>): seq<Attr> {
    seq(|es|, k requires 0 <= k < |es| => es[k].uid)
  }

  /** Element `k` of `s`, or `""` past its end: `zip_longest`'s fill value. */
  function Pad(s: seq<string>, k: nat): string {
    if k < |s| then s[k] else ""
  }

  function Tail<T>(s: seq<T>): seq<T> {
    if s == [] then [] else s[1..]
  }

  function Max(a: nat, b: nat): nat {
    if a >= b then a else b
  }

  /** `zip_longest(a, b, fillvalue="")`: one pair per position of the
      longer list. */
  function ZipLongest(a: seq<string>, b: seq<string>): (r: seq<(string, string)>)
    ensures |r| == Max(|a|, |b|)
    decreases |a| + |b|
  {
    if a == [] && b == [] then []
    else [(Pad(a, 0), Pad(b, 0))] + ZipLongest(Tail(a), Tail(b))
  }

  /** Pair `k` holds element `k` of each list, `""` past the end of the
      shorter one. */
  lemma {:induction false} ZipLongestPairs(a: seq<string>, b: seq<string>, k: nat)
    requires k < Max(|a|, |b|)
    ensures ZipLongest(a, b)[k] == (Pad(a, k), Pad(b, k))
    decreases k
  {
    if k > 0 {
      ZipLongestPairs(Tail(a), Tail(b), k - 1);
      assert Pad(Tail(a), k - 1) == Pad(a, k);
      assert Pad(Tail(b), k - 1) == Pad(b, k);
    }
  }

  /** The first component of every spine entry: the item ids in reading order. */
  function SpineIds(spine: seq<(string, string)>): (r: seq<string>)
    ensures |r| == |spine|
    ensures forall k :: 0 <= k < |spine| ==> r[k] == spine[k].0
  {
    if spine == [] then [] else [spine[0].0] + SpineIds(spine[1..])
  }

  // ---------------------------------------------------------------------
  // Content of the spine items
  // ---------------------------------------------------------------------

  /** The content of the item each spine entry names, in spine order:
      the first id the package does not hold raises. */
  function Contents(spine: seq<(string, string)>, items: map<string, string>): (r: Result<seq<string>>)
    ensures r.Ok? <==> forall k :: 0 <= k < |spine| ==> spine[k].0 in items
    ensures r.Ok? ==> |r.value| == |spine| && forall k :: 0 <= k < |spine| ==> r.value[k] == items[spine[k].0]
    ensures r.Err? ==> exists k :: 0 <= k < |spine| && spine[k].0 !in items && r.error == MissingItem(spine[k].0)
                                 && forall j :: 0 <= j < k ==> spine[j].0 in items
  {
    if spine == [] then Ok([])
    else if spine[0].0 !in items then Err(MissingItem(spine[0].0))
    else
      match Contents(spine[1..], items)
      case Err(e) =>
        assert exists k :: 1 <= k < |spine| && spine[k].0 !in items && e == MissingItem(spine[k].0)
                           && forall j :: 0 <= j < k ==> spine[j].0 in items by {
          var tail := spine[1..];
          var k :| 0 <= k < |tail| && tail[k].0 !in items && e == MissingItem(tail[k].0)
                   && forall j :: 0 <= j < k ==> tail[j].0 in items;
          assert spine[k + 1] == tail[k];
          assert forall j :: 1 <= j < k + 1 ==> spine[j] == tail[j - 1];
        }
        Err(e)
      case Ok(cs) =>
        assert forall k :: 1 <= k < |spine| ==> spine[k] == spine[1..][k - 1];
        Ok([items[spine[0].0]] + cs)
  }

  // ---------------------------------------------------------------------
  // Formatting translator
  // ---------------------------------------------------------------------

  const ShiftInToken: string := "___SHIFT_IN_CHARACTER___"
  const ShiftOutToken: string := "___SHIFT_OUT_CHARACTER___"

  /** SHIFT-IN (U+000F) opens an emphasised run; SHIFT-OUT (U+000E) closes it. */
  const ShiftIn: char := '\U{000F}'
  const ShiftOut: char := '\U{000E}'

  /** The replace chain run on the markup before parsing, in its order. */
  function Translate(s: string): string {
    var s := Replace(s, "<em>", ShiftInToken);
    var s := Replace(s, "</em>", ShiftOutToken);
    var s := Replace(s, "<i>", ShiftInToken);
    var s := Replace(s, "</i>", ShiftOutToken);
    var s := Replace(s, "<strong>", ShiftInToken + ShiftInToken);
    var s := Replace(s, "</strong>", ShiftOutToken + ShiftOutToken);
    var s := Replace(s, "<b>", ShiftOutToken + ShiftOutToken);
    Replace(s, "</b>", ShiftOutToken + ShiftOutToken)
  }

  /** The rewrite run on the extracted text: tokens to control characters. */
  function Restore(t: string): string {
    Replace(Replace(t, ShiftInToken, [ShiftIn]), ShiftOutToken, [ShiftOut])
  }

  /** One content part: translate (when formatting), parse, restore. */
  function ExtractPart(textOf: Parser, content: string, doFormatting: bool): (r: Result<string>)
    ensures !doFormatting ==> r == textOf(content)
  {
    var markup := if doFormatting then Translate(content) else content;
    match textOf(markup)
    case Err(e) => Err(e)
    case Ok(text) => Ok(if doFormatting then Restore(text) else text)
  }

  /** Markup without tags passes the translator unchanged. */
  lemma TranslatePlain(s: string)
    requires '<' !in s
    ensures Translate(s) == s
  {
    ReplaceNoFirst(s, "<em>", ShiftInToken);
    ReplaceNoFirst(s, "</em>", ShiftOutToken);
    ReplaceNoFirst(s, "<i>", ShiftInToken);
    ReplaceNoFirst(s, "</i>", ShiftOutToken);
    ReplaceNoFirst(s, "<strong>", ShiftInToken + ShiftInToken);
    ReplaceNoFirst(s, "</strong>", ShiftOutToken + ShiftOutToken);
    ReplaceNoFirst(s, "<b>", ShiftOutToken + ShiftOutToken);
    ReplaceNoFirst(s, "</b>", ShiftOutToken + ShiftOutToken);
  }

  /** Text without underscores passes the restorer unchanged. */
  lemma RestorePlain(t: string)
    requires '_' !in t
    ensures Restore(t) == t
  {
    ReplaceNoFirst(t, ShiftInToken, [ShiftIn]);
    ReplaceNoFirst(t, ShiftOutToken, [ShiftOut]);
  }

  /** The restorer brings in no character besides U+000F and U+000E. */
  lemma RestoreChars(t: string, c: char)
    requires c in Restore(t)
    ensures c in t || c == ShiftIn || c == ShiftOut
  {
    var once := Replace(t, ShiftInToken, [ShiftIn]);
    ReplaceChars(once, ShiftOutToken, [ShiftOut], c);
    if c in once {
      ReplaceChars(t, ShiftInToken, [ShiftIn], c);
    }
  }

  /** A tag pair that differs from `pat` inside both tags is left alone. */
  lemma PairUntouched(open: string, x: string, close: string, pat: string, rep: string, ko: nat, kc: nat)
    requires |pat| > 0 && pat[0] == '<'
    requires |open| > 0 && open[0] == '<' && '<' !in open[1..]
    requires |close| > 0 && close[0] == '<' && '<' !in close[1..]
    requires '<' !in x
    requires 0 < ko < |open| && ko < |pat| && open[ko] != pat[ko]
    requires 0 < kc < |close| && kc < |pat| && close[kc] != pat[kc]
    ensures Replace(open + x + close, pat, rep) == open + x + close
  {
    var s := open + x + close;
    ReplaceMissAt(s, pat, rep, ko);
    assert s[1..] == (open[1..] + x) + close;
    ReplaceSkip(open[1..] + x, close, pat, rep);
    ReplaceMissAt(close, pat, rep, kc);
    ReplaceNoFirst(close[1..], pat, rep);
    assert close == [close[0]] + close[1..];
    assert s == [s[0]] + s[1..];
  }

  /** The rules for `open` and then `close` turn the pair into its tokens. */
  lemma PairRewritten(open: string, x: string, close: string, t1: string, t2: string, kc: nat)
    requires |open| > 0 && open[0] == '<' && '<' !in open[1..]
    requires |close| > 0 && close[0] == '<' && '<' !in close[1..]
    requires '<' !in x && '<' !in t1
    requires 0 < kc < |close| && kc < |open| && close[kc] != open[kc]
    ensures Replace(Replace(open + x + close, open, t1), close, t2) == t1 + x + t2
  {
    assert open + x + close == open + (x + close);
    ReplacePrefix(open, t1, x + close);
    ReplaceSkip(x, close, open, t1);
    ReplaceMissAt(close, open, t1, kc);
    ReplaceNoFirst(close[1..], open, t1);
    assert close == [close[0]] + close[1..];
    assert t1 + (x + close) == (t1 + x) + close;
    ReplaceSkip(t1 + x, close, close, t2);
    assert close == close + [];
    ReplacePrefix(close, t2, []);
  }

  /** The characters of the two tokens the run lemmas rely on. */
  lemma TokenChars()
    ensures |ShiftInToken| == 24 && |ShiftOutToken| == 25
    ensures '<' !in ShiftInToken && '<' !in ShiftOutToken
    ensures ShiftInToken[0] == '_' && ShiftOutToken[0] == '_'
    ensures ShiftInToken[10] == 'N' && 'N' !in ShiftOutToken
    ensures ShiftInToken[7] == 'T' && ShiftInToken[8] == '_' && ShiftInToken[9] == 'I' && ShiftInToken[11] == '_'
    ensures ShiftOutToken[23] == '_' && ShiftOutToken[24] == '_'
  {
  }

  /** `<em>x</em>` becomes the SHIFT-IN token, `x`, the SHIFT-OUT token; the
      restorer turns those into U+000F, `x`, U+000E. */
  lemma EmphasisRun(x: string)
    requires '<' !in x && '_' !in x
    ensures Translate("<em>" + x + "</em>") == ShiftInToken + x + ShiftOutToken
    ensures Restore(ShiftInToken + x + ShiftOutToken) == [ShiftIn] + x + [ShiftOut]
  {
    TokenChars();
    PairRewritten("<em>", x, "</em>", ShiftInToken, ShiftOutToken, 1);
    TranslateTail(ShiftInToken + x + ShiftOutToken, 2);
    RunRestored(ShiftInToken, ShiftOutToken, ShiftIn, ShiftOut, x, 10);
  }

  /** `<i>x</i>` is rewritten as `<em>x</em>` is. */
  lemma ItalicRun(x: string)
    requires '<' !in x && '_' !in x
    ensures Translate("<i>" + x + "</i>") == ShiftInToken + x + ShiftOutToken
    ensures Restore(ShiftInToken + x + ShiftOutToken) == [ShiftIn] + x + [ShiftOut]
  {
    TokenChars();
    PairUntouched("<i>", x, "</i>", "<em>", ShiftInToken, 1, 1);
    PairUntouched("<i>", x, "</i>", "</em>", ShiftOutToken, 1, 2);
    PairRewritten("<i>", x, "</i>", ShiftInToken, ShiftOutToken, 1);
    TranslateTail(ShiftInToken + x + ShiftOutToken, 4);
    RunRestored(ShiftInToken, ShiftOutToken, ShiftIn, ShiftOut, x, 10);
  }

  /** `<strong>x</strong>` becomes two SHIFT-IN, `x`, two SHIFT-OUT. */
  lemma StrongRun(x: string)
    requires '<' !in x && '_' !in x
    ensures Translate("<strong>" + x + "</strong>")
         == ShiftInToken + ShiftInToken + x + ShiftOutToken + ShiftOutToken
    ensures Restore(ShiftInToken + ShiftInToken + x + ShiftOutToken + ShiftOutToken)
         == [ShiftIn, ShiftIn] + x + [ShiftOut, ShiftOut]
  {
    TokenChars();
    var o, c := "<strong>", "</strong>";
    PairUntouched(o, x, c, "<em>", ShiftInToken, 1, 1);
    PairUntouched(o, x, c, "</em>", ShiftOutToken, 1, 2);
    PairUntouched(o, x, c, "<i>", ShiftInToken, 1, 1);
    PairUntouched(o, x, c, "</i>", ShiftOutToken, 1, 2);
    DoublePairRewritten(o, x, c, ShiftInToken, ShiftOutToken, 1);
    TranslateTail(ShiftInToken + ShiftInToken + x + ShiftOutToken + ShiftOutToken, 6);
    DoubleRunRestored(ShiftInToken, ShiftOutToken, ShiftIn, ShiftOut, x, 10);
  }

  /** `<b>x</b>` becomes two SHIFT-OUT, `x`, two SHIFT-OUT: both tags of the
      pair are rewritten to the closing token, as `epub2txt` does. */
  lemma BoldRun(x: string)
    requires '<' !in x && '_' !in x
    ensures Translate("<b>" + x + "</b>")
         == ShiftOutToken + ShiftOutToken + x + ShiftOutToken + ShiftOutToken
    ensures Restore(ShiftOutToken + ShiftOutToken + x + ShiftOutToken + ShiftOutToken)
         == [ShiftOut, ShiftOut] + x + [ShiftOut, ShiftOut]
  {
    TokenChars();
    var o, c := "<b>", "</b>";
    PairUntouched(o, x, c, "<em>", ShiftInToken, 1, 1);
    PairUntouched(o, x, c, "</em>", ShiftOutToken, 1, 2);
    PairUntouched(o, x, c, "<i>", ShiftInToken, 1, 1);
    PairUntouched(o, x, c, "</i>", ShiftOutToken, 1, 2);
    PairUntouched(o, x, c, "<strong>", ShiftInToken + ShiftInToken, 1, 1);
    PairUntouched(o, x, c, "</strong>", ShiftOutToken + ShiftOutToken, 1, 2);
    DoublePairRewritten(o, x, c, ShiftOutToken, ShiftOutToken, 1);
    TranslateTail(ShiftOutToken + ShiftOutToken + x + ShiftOutToken + ShiftOutToken, 6);
    NoTokenInside(ShiftInToken, ShiftOutToken, x);
    BoldRunRestored(ShiftInToken, ShiftOutToken, ShiftIn, ShiftOut, x);
  }

  /** The rules for `open` and then `close`, with doubled tokens. */
  lemma DoublePairRewritten(open: string, x: string, close: string, t1: string, t2: string, kc: nat)
    requires |open| > 0 && open[0] == '<' && '<' !in open[1..]
    requires |close| > 0 && close[0] == '<' && '<' !in close[1..]
    requires '<' !in x && '<' !in t1
    requires 0 < kc < |close| && kc < |open| && close[kc] != open[kc]
    ensures Replace(Replace(open + x + close, open, t1 + t1), close, t2 + t2) == t1 + t1 + x + t2 + t2
  {
    PairRewritten(open, x, close, t1 + t1, t2 + t2, kc);
    assert t1 + t1 + x + (t2 + t2) == t1 + t1 + x + t2 + t2;
  }

  /** The rules from position `from` (1-based) on do not touch tag-free text. */
  lemma TranslateTail(t: string, from: nat)
    requires '<' !in t
    ensures from <= 2 ==> Replace(t, "<i>", ShiftInToken) == t && Replace(t, "</i>", ShiftOutToken) == t
    ensures from <= 4 ==> Replace(t, "<strong>", ShiftInToken + ShiftInToken) == t
                          && Replace(t, "</strong>", ShiftOutToken + ShiftOutToken) == t
    ensures Replace(t, "<b>", ShiftOutToken + ShiftOutToken) == t
         && Replace(t, "</b>", ShiftOutToken + ShiftOutToken) == t
  {
    ReplaceNoFirst(t, "<i>", ShiftInToken);
    ReplaceNoFirst(t, "</i>", ShiftOutToken);
    ReplaceNoFirst(t, "<strong>", ShiftInToken + ShiftInToken);
    ReplaceNoFirst(t, "</strong>", ShiftOutToken + ShiftOutToken);
    ReplaceNoFirst(t, "<b>", ShiftOutToken + ShiftOutToken);
    ReplaceNoFirst(t, "</b>", ShiftOutToken + ShiftOutToken);
  }

  /** Restoring opening token `t`, text `x`, closing token `u` gives the two
      characters around `x`, when `t` has a character `u` lacks. */
  lemma RunRestored(t: string, u: string, ci: char, co: char, x: string, k: nat)
    requires |t| > 0 && |u| > 0 && k < |t| && t[k] !in u
    requires t[0] !in x && u[0] !in x && u[0] != ci
    ensures Replace(Replace(t + x + u, t, [ci]), u, [co]) == [ci] + x + [co]
  {
    ReplaceLacking(u, t, [ci], k);
    ReplaceEnclosed(t, [ci], x, u);
    ReplaceTrailing([ci] + x, u, [co]);
  }

  /** As `RunRestored`, with both tokens doubled. */
  lemma DoubleRunRestored(t: string, u: string, ci: char, co: char, x: string, k: nat)
    requires |t| > 0 && |u| > 0 && k < |t| && t[k] !in u
    requires t[0] !in x && u[0] !in x && u[0] != ci
    ensures Replace(Replace(t + t + x + u + u, t, [ci]), u, [co]) == [ci, ci] + x + [co, co]
  {
    var uu := u + u;
    assert t[k] !in uu;
    ReplaceLacking(uu, t, [ci], k);
    DoubleOpen(t, [ci], x, uu);
    assert t + t + x + u + u == t + t + x + uu;
    DoubleClose([ci] + [ci] + x, u, [co]);
    assert [ci] + [ci] + x + [co] + [co] == [ci, ci] + x + [co, co];
  }

  /** Two opening tokens before text that does not start one. */
  lemma DoubleOpen(t: string, rep: string, x: string, tail: string)
    requires |t| > 0 && t[0] !in x && Replace(tail, t, rep) == tail
    ensures Replace(t + t + x + tail, t, rep) == rep + rep + x + tail
  {
    ReplaceEnclosed(t, rep, x, tail);
    assert t + t + x + tail == t + (t + x + tail);
    ReplacePrefix(t, rep, t + x + tail);
    assert rep + (rep + x + tail) == rep + rep + x + tail;
  }

  /** Text that does not start the token, then the token twice. */
  lemma DoubleClose(a: string, u: string, rep: string)
    requires |u| > 0 && u[0] !in a
    ensures Replace(a + (u + u), u, rep) == a + rep + rep
  {
    ReplaceSkip(a, u + u, u, rep);
    ReplaceTwice(u, rep);
  }

  /** Two copies of the token at the front become two replacements. */
  lemma Consecutive(u: string, rep: string, b: string)
    requires |u| > 0
    ensures Replace(u + (u + b), u, rep) == rep + (rep + Replace(b, u, rep))
  {
    ReplacePrefix(u, rep, u + b);
    ReplacePrefix(u, rep, b);
  }

  /** Two tokens, text that does not start one, two tokens: all four tokens
      are replaced. */
  lemma QuadReplaced(u: string, rep: string, x: string)
    requires |u| > 0 && u[0] !in x
    ensures Replace(u + (u + (x + (u + u))), u, rep) == rep + (rep + (x + (rep + rep)))
  {
    Consecutive(u, rep, x + (u + u));
    ReplaceSkip(x, u + u, u, rep);
    ReplaceTwice(u, rep);
  }

  /** Restoring a bold run: the opening token `t` is absent, and the four
      closing tokens `u` become four closing characters. */
  lemma BoldRunRestored(t: string, u: string, ci: char, co: char, x: string)
    requires |t| > 0 && |u| > 0 && u[0] !in x
    requires forall p :: !OccursAt(u + u + x + u + u, t, p)
    ensures Replace(Replace(u + u + x + u + u, t, [ci]), u, [co]) == [co, co] + x + [co, co]
  {
    ReplaceAbsent(u + u + x + u + u, t, [ci]);
    ConcatAssoc5(u, u, x, u, u);
    QuadReplaced(u, [co], x);
    ConcatAssoc5([co], [co], x, [co], [co]);
    assert [co] + [co] == [co, co];
  }

  /** The opening token `t` never occurs in `u u x u u`: the character at
      its position 10 is missing from `u`, and the characters around it
      cannot straddle the edges of `x`. */
  lemma NoTokenInside(t: string, u: string, x: string)
    requires |t| >= 12 && |u| >= 2
    requires t[10] !in u && t[8] !in x && t[11] !in x
    requires t[9] != u[|u| - 1] && t[7] != u[|u| - 2]
    ensures forall p :: !OccursAt(u + u + x + u + u, t, p)
  {
    var pre, post := u + u, u + u;
    var s := pre + x + post;
    assert u + u + x + u + u == s;
    forall p ensures !OccursAt(s, t, p) {
      if 0 <= p && p + |t| <= |s| {
        var w := s[p..p + |t|];
        if p + 10 < |pre| {
          assert w[10] == pre[p + 10];
          assert pre[p + 10] in u;
          assert w[10] != t[10];
        } else if p + 10 >= |pre| + |x| {
          assert w[10] == post[p + 10 - |pre| - |x|];
          assert post[p + 10 - |pre| - |x|] in u;
          assert w[10] != t[10];
        } else if p + 8 >= |pre| {
          assert w[8] == x[p + 8 - |pre|];
          assert w[8] != t[8];
        } else if p + 11 < |pre| + |x| {
          assert w[11] == x[p + 11 - |pre|];
          assert w[11] != t[11];
        } else if p + 8 == |pre| - 2 {
          assert w[9] == pre[|pre| - 1] == u[|u| - 1];
          assert w[9] != t[9];
        } else {
          assert w[7] == pre[|pre| - 2] == u[|u| - 2];
          assert w[7] != t[7];
        }
      }
    }
  }

  // ---------------------------------------------------------------------
  // Text normaliser
  // ---------------------------------------------------------------------

  /** Every line stripped, the lines left empty dropped. */
  function CleanLines(ls: seq<string>): seq<string> {
    if ls == [] then []
    else if Strip(ls[0]) != [] then [Strip(ls[0])] + CleanLines(ls[1..])
    else CleanLines(ls[1..])
  }

  /** The kept lines are non-empty and equal to their own strip; they hold
      no line boundary when the input lines hold none; and together they
      keep every non-whitespace character of the input lines, in order. */
  lemma {:induction false} CleanLinesShape(ls: seq<string>)
    ensures var r := CleanLines(ls);
            forall k :: 0 <= k < |r| ==> r[k] != [] && Strip(r[k]) == r[k]
    ensures (forall l :: l in ls ==> NoLineBreak(l)) ==> forall l :: l in CleanLines(ls) ==> NoLineBreak(l)
    ensures NonSpaceLines(CleanLines(ls)) == NonSpaceLines(ls)
    decreases |ls|
  {
    if ls != [] {
      var s := Strip(ls[0]);
      StripIdempotent(ls[0]);
      StripShape(ls[0]);
      CleanLinesShape(ls[1..]);
      var rest := CleanLines(ls[1..]);
      assert forall l :: l in ls[1..] ==> l in ls;
      StripKeepsNoBreak(ls[0]);
      if s != [] {
        assert CleanLines(ls) == [s] + rest;
        assert NonSpaceLines([s] + rest) == NonSpace(s) + NonSpaceLines(rest);
      }
    }
  }

  /** Kept line `j` is line `k` of the input, stripped: a slice of it with
      only whitespace cut away around it. */
  lemma {:induction false} CleanLineSource(ls: seq<string>, j: nat) returns (k: nat)
    requires j < |CleanLines(ls)|
    ensures k < |ls| && CleanLines(ls)[j] == Strip(ls[k])
    ensures exists a, b :: 0 <= a <= b <= |ls[k]| && CleanLines(ls)[j] == ls[k][a..b]
                           && forall p :: 0 <= p < |ls[k]| && (p < a || b <= p) ==> IsSpace(ls[k][p])
    decreases |ls|
  {
    if Strip(ls[0]) != [] && j == 0 {
      k := 0;
    } else {
      var i := if Strip(ls[0]) != [] then j - 1 else j;
      assert CleanLines(ls)[j] == CleanLines(ls[1..])[i];
      var rest := CleanLineSource(ls[1..], i);
      k := rest + 1;
      assert ls[k] == ls[1..][rest];
    }
    StripShape(ls[k]);
  }

  lemma StripKeepsNoBreak(s: string)
    ensures NoLineBreak(s) ==> NoLineBreak(Strip(s))
  {
    StripShape(s);
    var r := Strip(s);
    forall k | 0 <= k < |r| ensures NoLineBreak(s) ==> !IsLineBreak(r[k]) {
      assert r[k] in r;
    }
  }

  /** The cleaning pass over one text. */
  function Clean(text: string): string {
    Join(CleanLines(Splitlines(text)), "\n")
  }

  /** Every line of a cleaned text is non-empty and equal to its own strip. */
  lemma CleanLinesAreStripped(text: string)
    ensures var ls := Splitlines(Clean(text));
            forall k :: 0 <= k < |ls| ==> ls[k] != [] && Strip(ls[k]) == ls[k]
  {
    CleanSplitlines(text);
    CleanLinesShape(Splitlines(text));
  }

  lemma CleanSplitlines(text: string)
    ensures Splitlines(Clean(text)) == CleanLines(Splitlines(text))
  {
    var ls := CleanLines(Splitlines(text));
    SplitlinesNoBreaks(text);
    CleanLinesShape(Splitlines(text));
    forall k | 0 <= k < |ls| ensures ls[k] != [] && NoLineBreak(ls[k]) {
      assert ls[k] in ls;
    }
    SplitlinesJoin(ls);
  }

  /** Cleaning a cleaned text returns it unchanged. */
  lemma CleanIdempotent(text: string)
    ensures Clean(Clean(text)) == Clean(text)
  {
    CleanSplitlines(text);
    CleanLinesShape(Splitlines(text));
    CleanLinesFixed(CleanLines(Splitlines(text)));
  }

  lemma {:induction false} CleanLinesFixed(ls: seq<string>)
    requires forall k :: 0 <= k < |ls| ==> ls[k] != [] && Strip(ls[k]) == ls[k]
    ensures CleanLines(ls) == ls
    decreases |ls|
  {
    if ls != [] {
      CleanLinesFixed(ls[1..]);
      assert ls == [ls[0]] + ls[1..];
    }
  }

  /** Cleaning removes only whitespace: the non-whitespace characters (the
      sentinels U+000E and U+000F among them) are kept, in order. */
  lemma CleanKeepsNonSpace(text: string)
    ensures NonSpace(Clean(text)) == NonSpace(text)
  {
    CleanLinesShape(Splitlines(text));
    NonSpaceJoin(CleanLines(Splitlines(text)), "\n");
    SplitlinesNonSpace(text);
  }

  /** Number of occurrences of `c` in `s`. */
  function Count(s: string, c: char): nat {
    if s == [] then 0 else (if s[0] == c then 1 else 0) + Count(s[1..], c)
  }

  lemma {:induction false} CountNonSpace(s: string, c: char)
    requires !IsSpace(c)
    ensures Count(NonSpace(s), c) == Count(s, c)
    decreases |s|
  {
    if s != [] {
      CountNonSpace(s[1..], c);
      CountAppend(if IsSpace(s[0]) then [] else [s[0]], NonSpace(s[1..]), c);
    }
  }

  lemma {:induction false} CountAppend(a: string, b: string, c: char)
    ensures Count(a + b, c) == Count(a, c) + Count(b, c)
    decreases |a|
  {
    if a != [] {
      assert (a + b)[1..] == a[1..] + b;
      CountAppend(a[1..], b, c);
    } else {
      assert a + b == b;
    }
  }

  /** Cleaning keeps the number of SHIFT-IN and of SHIFT-OUT characters. */
  lemma CleanKeepsSentinels(text: string)
    ensures Count(Clean(text), ShiftIn) == Count(text, ShiftIn)
    ensures Count(Clean(text), ShiftOut) == Count(text, ShiftOut)
  {
    CleanKeepsNonSpace(text);
    CountNonSpace(Clean(text), ShiftIn);
    CountNonSpace(text, ShiftIn);
    CountNonSpace(Clean(text), ShiftOut);
    CountNonSpace(text, ShiftOut);
  }

  /** A cleaned text holds only characters of the text, and `"\n"`; of the
      line boundaries only `"\n"` remains (so no U+001E). */
  lemma CleanChars(text: string, c: char)
    requires c in Clean(text)
    ensures c in text || c == '\n'
    ensures IsLineBreak(c) ==> c == '\n'
  {
    var ls := CleanLines(Splitlines(text));
    JoinChars(ls, "\n", c);
    if c != '\n' {
      var k :| 0 <= k < |ls| && c in ls[k];
      CleanLinesChars(Splitlines(text), c);
      var l :| l in Splitlines(text) && c in l;
      SplitlinesChars(text, l, c);
      SplitlinesNoBreaks(text);
      var i :| 0 <= i < |l| && l[i] == c;
    }
  }

  lemma {:induction false} CleanLinesChars(ls: seq<string>, c: char)
    requires exists k :: 0 <= k < |CleanLines(ls)| && c in CleanLines(ls)[k]
    ensures exists l :: l in ls && c in l
    decreases |ls|
  {
    var r := CleanLines(ls);
    var k :| 0 <= k < |r| && c in r[k];
    var s := Strip(ls[0]);
    StripShape(ls[0]);
    if s != [] && k == 0 {
      assert ls[0] in ls;
    } else {
      var rest := CleanLines(ls[1..]);
      var k' := if s != [] then k - 1 else k;
      assert rest[k'] == r[k];
      CleanLinesChars(ls[1..], c);
      var l :| l in ls[1..] && c in l;
      assert l in ls;
    }
  }

  lemma {:induction false} SplitlinesChars(s: string, l: string, c: char)
    requires l in Splitlines(s) && c in l
    ensures c in s
    decreases |s|
  {
    var i := LineEnd(s);
    if i < |s| && l != s[..i] {
      var j := NextLine(s, i);
      SplitlinesChars(s[j..], l, c);
    }
  }

  /** Cleaning every text of a list: the loop at the end of the call. */
  function CleanAll(texts: seq<string>): (r: seq<string>)
    ensures |r| == |texts| && forall k :: 0 <= k < |texts| ==> r[k] == Clean(texts[k])
  {
    if texts == [] then [] else [Clean(texts[0])] + CleanAll(texts[1..])
  }

  // ---------------------------------------------------------------------
  // The whole call
  // ---------------------------------------------------------------------

  /** The texts of the parts, in order; the first failure is raised. */
  function ExtractAll(textOf: Parser, contents: seq<string>, doFormatting: bool): Result<seq<string>> {
    if contents == [] then Ok([])
    else
      match ExtractPart(textOf, contents[0], doFormatting)
      case Err(e) => Err(e)
      case Ok(t) =>
        match ExtractAll(textOf, contents[1..], doFormatting)
        case Err(e) => Err(e)
        case Ok(ts) => Ok([t] + ts)
  }

  /** `texts` followed by the outcome `r` of the rest of the loop. */
  function Prepend(texts: seq<string>, r: Result<seq<string>>): Result<seq<string>> {
    match r
    case Err(e) => Err(e)
    case Ok(ts) => Ok(texts + ts)
  }

  /** One turn of the parsing loop: part `k` parses, and its text joins
      those collected so far. */
  lemma ExtractStep(textOf: Parser, contents: seq<string>, k: nat, doFormatting: bool, texts: seq<string>)
    requires k < |contents| && ExtractPart(textOf, contents[k], doFormatting).Ok?
    ensures Prepend(texts, ExtractAll(textOf, contents[k..], doFormatting))
         == Prepend(texts + [ExtractPart(textOf, contents[k], doFormatting).value],
                    ExtractAll(textOf, contents[k + 1..], doFormatting))
  {
    assert contents[k..][1..] == contents[k + 1..];
    var rest := ExtractAll(textOf, contents[k + 1..], doFormatting);
    if rest.Ok? {
      var t := ExtractPart(textOf, contents[k], doFormatting).value;
      assert texts + ([t] + rest.value) == texts + [t] + rest.value;
    }
  }

  lemma PrependEmpty(r: Result<seq<string>>)
    ensures Prepend([], r) == r
  {
    if r.Ok? {
      assert [] + r.value == r.value;
    }
  }

  function Shape(texts: seq<string>, outputList: bool): Output {
    if outputList then Texts(texts) else Joined(Join(texts, "\n"))
  }

  /** What the call returns or raises, as a function of its inputs. */
  function Extraction(book: Book, textOf: Parser, clean: bool, outputList: bool, doFormatting: bool): Result<Output> {
    match Contents(book.spine, book.items)
    case Err(e) => Err(e)
    case Ok(contents) =>
      match ExtractAll(textOf, contents, doFormatting)
      case Err(e) => Err(e)
      case Ok(texts) => Ok(Shape(if clean then CleanAll(texts) else texts, outputList))
  }

  /** Every part parses exactly when the loop completes; then the texts are
      those of the parts, in order. Otherwise the error raised is that of
      the first part that fails. */
  lemma ExtractAllAligned(textOf: Parser, contents: seq<string>, doFormatting: bool)
    ensures var r := ExtractAll(textOf, contents, doFormatting);
            r.Ok? <==> forall k :: 0 <= k < |contents| ==> ExtractPart(textOf, contents[k], doFormatting).Ok?
    ensures var r := ExtractAll(textOf, contents, doFormatting);
            r.Ok? ==> |r.value| == |contents|
                      && forall k :: 0 <= k < |contents| ==> r.value[k] == ExtractPart(textOf, contents[k], doFormatting).value
    ensures var r := ExtractAll(textOf, contents, doFormatting);
            r.Err? ==> exists k :: 0 <= k < |contents| && ExtractPart(textOf, contents[k], doFormatting) == Err(r.error)
                                 && forall j :: 0 <= j < k ==> ExtractPart(textOf, contents[j], doFormatting).Ok?
  {
    ExtractAllOk(textOf, contents, doFormatting);
    if ExtractAll(textOf, contents, doFormatting).Err? {
      ExtractAllErr(textOf, contents, doFormatting);
    }
  }

  /** The loop completes exactly when every part parses, with their texts. */
  lemma {:induction false} ExtractAllOk(textOf: Parser, contents: seq<string>, doFormatting: bool)
    ensures var r := ExtractAll(textOf, contents, doFormatting);
            r.Ok? <==> forall k :: 0 <= k < |contents| ==> ExtractPart(textOf, contents[k], doFormatting).Ok?
    ensures var r := ExtractAll(textOf, contents, doFormatting);
            r.Ok? ==> |r.value| == |contents|
                      && forall k :: 0 <= k < |contents| ==> r.value[k] == ExtractPart(textOf, contents[k], doFormatting).value
    decreases |contents|
  {
    if contents != [] {
      ExtractAllOk(textOf, contents[1..], doFormatting);
      assert forall k :: 1 <= k < |contents| ==> contents[k] == contents[1..][k - 1];
    }
  }

  /** A loop that raises raises the error of its first failing part. */
  lemma {:induction false} ExtractAllErr(textOf: Parser, contents: seq<string>, doFormatting: bool)
    requires ExtractAll(textOf, contents, doFormatting).Err?
    ensures exists k :: 0 <= k < |contents|
                        && ExtractPart(textOf, contents[k], doFormatting) == Err(ExtractAll(textOf, contents, doFormatting).error)
                        && forall j :: 0 <= j < k ==> ExtractPart(textOf, contents[j], doFormatting).Ok?
    decreases |contents|
  {
    var first := ExtractPart(textOf, contents[0], doFormatting);
    if first.Err? {
      assert ExtractPart(textOf, contents[0], doFormatting) == Err(ExtractAll(textOf, contents, doFormatting).error);
    } else {
      var tail := contents[1..];
      ExtractAllErr(textOf, tail, doFormatting);
      var k :| 0 <= k < |tail| && ExtractPart(textOf, tail[k], doFormatting) == Err(ExtractAll(textOf, tail, doFormatting).error)
               && forall j :: 0 <= j < k ==> ExtractPart(textOf, tail[j], doFormatting).Ok?;
      assert contents[k + 1] == tail[k];
      forall j | 0 <= j < k + 1
        ensures ExtractPart(textOf, contents[j], doFormatting).Ok?
      {
        if j > 0 {
          assert contents[j] == tail[j - 1];
        }
      }
    }
  }

  /** With the list output, the call succeeds exactly when every spine id
      names an item and every part parses; it then returns one text per
      spine entry, in spine order, cleaned when asked. */
  lemma ExtractionAligned(book: Book, textOf: Parser, clean: bool, doFormatting: bool)
    ensures var r := Extraction(book, textOf, clean, true, doFormatting);
            r.Ok? <==> forall k :: 0 <= k < |book.spine| ==>
                         book.spine[k].0 in book.items
                         && ExtractPart(textOf, book.items[book.spine[k].0], doFormatting).Ok?
    ensures var r := Extraction(book, textOf, clean, true, doFormatting);
            r.Ok? ==> r.value.Texts? && |r.value.texts| == |book.spine|
                      && forall k :: 0 <= k < |book.spine| ==>
                           var text := ExtractPart(textOf, book.items[book.spine[k].0], doFormatting).value;
                           r.value.texts[k] == if clean then Clean(text) else text
  {
    var found := Contents(book.spine, book.items);
    if found.Ok? {
      ExtractAllAligned(textOf, found.value, doFormatting);
    } else {
      var k :| 0 <= k < |book.spine| && book.spine[k].0 !in book.items;
    }
  }

  /** A call that raises reports the first missing item, or the failure of
      the first part that does not parse, and returns nothing. */
  lemma ExtractionFails(book: Book, textOf: Parser, clean: bool, outputList: bool, doFormatting: bool)
    requires Extraction(book, textOf, clean, outputList, doFormatting).Err?
    ensures var e := Extraction(book, textOf, clean, outputList, doFormatting).error;
            (exists k :: 0 <= k < |book.spine| && book.spine[k].0 !in book.items && e == MissingItem(book.spine[k].0)
                         && forall j :: 0 <= j < k ==> book.spine[j].0 in book.items)
            || ((forall j :: 0 <= j < |book.spine| ==> book.spine[j].0 in book.items)
                && exists k :: 0 <= k < |book.spine|
                               && ExtractPart(textOf, book.items[book.spine[k].0], doFormatting) == Err(e)
                               && forall j :: 0 <= j < k ==> ExtractPart(textOf, book.items[book.spine[j].0], doFormatting).Ok?)
  {
    var found := Contents(book.spine, book.items);
    if found.Ok? {
      ExtractAllAligned(textOf, found.value, doFormatting);
    }
  }

  /** The string output is the list output joined with single newlines. */
  lemma ExtractionJoined(book: Book, textOf: Parser, clean: bool, doFormatting: bool)
    ensures Extraction(book, textOf, clean, false, doFormatting)
         == match Extraction(book, textOf, clean, true, doFormatting)
            case Ok(out) => Ok(Joined(Join(out.texts, "\n")))
            case Err(e) => Err(e)
  {
  }

  /** The parser gives back `c` only from a document that holds `c`. XML
      forbids a character reference to U+000E or U+000F, so the parser
      cannot produce either one from an escape. */
  ghost predicate KeepsCharacter(textOf: Parser, markup: string, c: char) {
    textOf(markup).Ok? && c in textOf(markup).value ==> c in markup
  }

  /** With formatting off, a U+000E or U+000F in the text of chapter `k` was
      already in that chapter's content. */
  lemma NoControlIntroduced(book: Book, textOf: Parser, clean: bool, k: nat, c: char)
    requires c == ShiftIn || c == ShiftOut
    requires var r := Extraction(book, textOf, clean, true, false);
             r.Ok? && r.value.Texts? && k < |r.value.texts| && c in r.value.texts[k]
    requires k < |book.spine| && book.spine[k].0 in book.items
    requires KeepsCharacter(textOf, book.items[book.spine[k].0], c)
    ensures c in book.items[book.spine[k].0]
  {
    ExtractionAligned(book, textOf, clean, false);
    var text := textOf(book.items[book.spine[k].0]).value;
    if clean {
      CleanChars(text, c);
    }
  }

  /** The table-of-contents attribute after a call: the new values when the
      comprehension succeeds, the previous ones when it raises. */
  function Refresh(found: Option<seq<string>>, previous: seq<string>): seq<string> {
    if found.Some? then found.value else previous
  }

  /** The parsing loop: the text of each part in turn, stopping at the
      first part the parser rejects. */
  method ParseParts(textOf: Parser, contents: seq<string>, doFormatting: bool) returns (r: Result<seq<string>>)
    ensures r == ExtractAll(textOf, contents, doFormatting)
  {
    var texts: seq<string> := [];
    var k := 0;
    assert contents[k..] == contents;
    PrependEmpty(ExtractAll(textOf, contents, doFormatting));
    while k < |contents|
      invariant 0 <= k <= |contents|
      invariant ExtractAll(textOf, contents, doFormatting)
             == Prepend(texts, ExtractAll(textOf, contents[k..], doFormatting))
    {
      var text := ExtractPart(textOf, contents[k], doFormatting);
      if text.Err? {
        return Err(text.error);
      }
      ExtractStep(textOf, contents, k, doFormatting, texts);
      texts := texts + [text.value];
      k := k + 1;
    }
    assert contents[k..] == [];
    assert texts + [] == texts;
    r := Ok(texts);
  }

  /** The cleaning loop: every text replaced by its cleaned form. */
  method CleanEach(texts: seq<string>) returns (cleaned: seq<string>)
    ensures cleaned == CleanAll(texts)
  {
    cleaned := [];
    var j := 0;
    while j < |texts|
      invariant 0 <= j <= |texts|
      invariant |cleaned| == j && forall i :: 0 <= i < j ==> cleaned[i] == Clean(texts[i])
    {
      cleaned := cleaned + [Clean(texts[j])];
      j := j + 1;
    }
  }

  /** The attributes a call publishes, from the package and the values the
      previous call left. Titles and hrefs are read in one `try` block: the
      hrefs are replaced only when the titles were. */
  function Published(book: Book, prior: Attrs): Attrs {
    var flat := Flatten(book.toc);
    var titles := Values(Titles(flat));
    var tocTitles := Refresh(titles, prior.tocTitles);
    var tocHrefs := if titles.Some? then Refresh(Values(Hrefs(flat)), prior.tocHrefs) else prior.tocHrefs;
    var tocUids := Refresh(Values(Uids(flat)), prior.tocUids);
    Attrs(book.title, ZipLongest(tocTitles, tocHrefs), tocTitles, tocHrefs, tocUids,
          SpineIds(book.spine), book.metadata)
  }

  /** A second call on the same package publishes what the first did,
      whatever the first call started from. */
  lemma PublishedStable(book: Book, prior: Attrs)
    ensures Published(book, Published(book, prior)) == Published(book, prior)
  {
  }

  /** When every leaf of the table of contents has a title, the titles are
      those of the leaves, in depth-first order; otherwise the previous
      titles and hrefs stay. */
  lemma PublishedTitles(book: Book, prior: Attrs)
    ensures var flat := Flatten(book.toc);
            var a := Published(book, prior);
            ((forall k :: 0 <= k < |flat| ==> flat[k].title.Present?) ==>
               |a.tocTitles| == |flat| && forall k :: 0 <= k < |flat| ==> a.tocTitles[k] == flat[k].title.value)
            && ((exists k :: 0 <= k < |flat| && flat[k].title.Missing?) ==>
                  a.tocTitles == prior.tocTitles && a.tocHrefs == prior.tocHrefs)
  {
    var flat := Flatten(book.toc);
    assert forall k :: 0 <= k < |flat| ==> Titles(flat)[k] == flat[k].title;
  }

  /** Once the titles are read, the hrefs are those of the leaves when every
      leaf has one, and the previous hrefs otherwise. */
  lemma PublishedHrefs(book: Book, prior: Attrs)
    requires var flat := Flatten(book.toc); forall k :: 0 <= k < |flat| ==> flat[k].title.Present?
    ensures var flat := Flatten(book.toc);
            var a := Published(book, prior);
            ((forall k :: 0 <= k < |flat| ==> flat[k].href.Present?) ==>
               |a.tocHrefs| == |flat| && forall k :: 0 <= k < |flat| ==> a.tocHrefs[k] == flat[k].href.value)
            && ((exists k :: 0 <= k < |flat| && flat[k].href.Missing?) ==> a.tocHrefs == prior.tocHrefs)
  {
    var flat := Flatten(book.toc);
    assert forall k :: 0 <= k < |flat| ==> Titles(flat)[k] == flat[k].title && Hrefs(flat)[k] == flat[k].href;
  }

  /** The uids are read on their own: those of the leaves when every leaf
      has one, the previous uids otherwise. */
  lemma PublishedUids(book: Book, prior: Attrs)
    ensures var flat := Flatten(book.toc);
            var a := Published(book, prior);
            ((forall k :: 0 <= k < |flat| ==> flat[k].uid.Present?) ==>
               |a.tocUids| == |flat| && forall k :: 0 <= k < |flat| ==> a.tocUids[k] == flat[k].uid.value)
            && ((exists k :: 0 <= k < |flat| && flat[k].uid.Missing?) ==> a.tocUids == prior.tocUids)
  {
    var flat := Flatten(book.toc);
    assert forall k :: 0 <= k < |flat| ==> Uids(flat)[k] == flat[k].uid;
  }

  /** On the first call, a table of contents with a leaf lacking its title
      publishes no titles, no hrefs and an empty `toc`: the initial values
      stay. */
  lemma FirstCallUntitled(book: Book)
    requires exists k :: 0 <= k < |Flatten(book.toc)| && Flatten(book.toc)[k].title.Missing?
    ensures var a := Published(book, InitialAttrs);
            a.tocTitles == [] && a.tocHrefs == [] && a.toc == []
  {
    PublishedTitles(book, InitialAttrs);
  }

  /** One call of `epub2txt`: the attributes it publishes, then the chapter texts
      or the exception it raises. */
  method Epub2txt(book: Book, textOf: Parser, prior: Attrs, clean: bool, outputList: bool, doFormatting: bool)
    returns (attrs: Attrs, r: Result<Output>)
    ensures attrs == Published(book, prior)
    ensures r == Extraction(book, textOf, clean, outputList, doFormatting)
  {
    var flat := Flatten(book.toc);
    var tocTitles, tocHrefs, tocUids := prior.tocTitles, prior.tocHrefs, prior.tocUids;
    var titles := Values(Titles(flat));
    if titles.Some? {
      tocTitles := titles.value;
      var hrefs := Values(Hrefs(flat));
      if hrefs.Some? {
        tocHrefs := hrefs.value;
      }
    }
    var uids := Values(Uids(flat));
    if uids.Some? {
      tocUids := uids.value;
    }
    attrs := Attrs(book.title, ZipLongest(tocTitles, tocHrefs), tocTitles, tocHrefs, tocUids,
                   SpineIds(book.spine), book.metadata);

    var found := Contents(book.spine, book.items);
    if found.Err? {
      r := Err(found.error);
      return;
    }
    var parsed := ParseParts(textOf, found.value, doFormatting);
    if parsed.Err? {
      r := Err(parsed.error);
      return;
    }
    var texts := parsed.value;
    if clean {
      texts := CleanEach(texts);
    }
    if outputList {
      r := Ok(Texts(texts));
    } else {
      r := Ok(Joined(Join(texts, "\n")));
    }
  }
}
