/** The conversion driver: extract the chapters of one book (retrying
    without formatting when the markup does not parse), reduce its metadata
    to the few fields the output needs, let the reader choose chapters,
    and assemble the text of the output file and its name. */
module Convert {
  import opened Text
  import opened Results
  import opened Epub2txt

  // ---------------------------------------------------------------------
  // Extraction with the formatting fallback
  // ---------------------------------------------------------------------

  /** The chapter list of a list-shaped outcome. */
  function Chapters(r: Result<Output>): Result<seq<string>>
    requires r.Ok? ==> r.value.Texts?
  {
    match r
    case Err(e) => Err(e)
    case Ok(out) => Ok(out.texts)
  }

  /** Extract with formatting; on a parse error only, warn and extract once
      more without formatting. Any other failure, and a failure of the
      second attempt, propagates. The attributes read afterwards are those
      of the last call, which received those of the first. */
  method ReadChapters(book: Book, textOf: Parser, prior: Attrs)
    returns (attrs: Attrs, chapters: Result<seq<string>>, warned: bool)
    ensures warned <==> Extraction(book, textOf, true, true, true) == Err(XmlSyntaxError)
    ensures chapters == Chapters(Extraction(book, textOf, true, true, !warned))
    ensures attrs == Published(book, prior)
  {
    var first: Result<Output>;
    attrs, first := Epub2txt.Epub2txt(book, textOf, prior, true, true, true);
    warned := first == Err(XmlSyntaxError);
    if warned {
      var second: Result<Output>;
      attrs, second := Epub2txt.Epub2txt(book, textOf, attrs, true, true, false);
      chapters := Chapters(second);
      PublishedStable(book, prior);
    } else {
      chapters := Chapters(first);
    }
  }

  /** Cleaned chapters hold no U+001E: it is a line boundary, and cleaning
      keeps no boundary but `"\n"`. */
  lemma ChaptersHaveNoSeparator(book: Book, textOf: Parser, doFormatting: bool)
    ensures var r := Extraction(book, textOf, true, true, doFormatting);
            r.Ok? ==> forall k :: 0 <= k < |r.value.texts| ==> RecordSeparator !in r.value.texts[k]
  {
    var r := Extraction(book, textOf, true, true, doFormatting);
    if r.Ok? {
      ExtractionAligned(book, textOf, true, doFormatting);
      forall k | 0 <= k < |r.value.texts| ensures RecordSeparator !in r.value.texts[k] {
        var text := ExtractPart(textOf, book.items[book.spine[k].0], doFormatting).value;
        if RecordSeparator in Clean(text) {
          CleanChars(text, RecordSeparator);
          assert false;
        }
      }
    }
  }

  // ---------------------------------------------------------------------
  // Metadata reduction
  // ---------------------------------------------------------------------

  /** The fields the driver prints and writes; `None` until set. */
  datatype Metadata = Metadata(
    title: Option<string>,
    author: Option<string>,
    language: Option<string>,
    genre: Option<string>,
    description: Option<string>)

  const Unset := Metadata(None, None, None, None, None)

  /** The metadata field names the driver reads. */
  predicate IsRead(name: string) {
    name == "title" || name == "creator" || name == "language" || name == "subject"
  }

  /** The slice `s[0:n]`. */
  function Prefix(s: string, n: nat): (r: string)
    ensures |r| == if |s| <= n then |s| else n
    ensures r == s[..|r|]
  {
    if |s| <= n then s else s[..n]
  }

  /** What the driver stores for a field name's first value. */
  function ReadValue(name: string, v: string): string {
    if name == "language" then Prefix(v, 2) else v
  }

  /** The slot of `m` that a field name sets. */
  function Slot(m: Metadata, name: string): Option<string> {
    if name == "title" then m.title
    else if name == "creator" then m.author
    else if name == "language" then m.language
    else if name == "subject" then m.genre
    else None
  }

  /** One turn of the inner loop: a read field overwrites its slot with its
      first value, or raises when it has none. */
  function Absorb(m: Metadata, f: MetaField): Result<Metadata> {
    if !IsRead(f.name) then Ok(m)
    else if |f.values| == 0 then Err(IndexError)
    else
      var v := ReadValue(f.name, f.values[0]);
      if f.name == "title" then Ok(m.(title := Some(v)))
      else if f.name == "creator" then Ok(m.(author := Some(v)))
      else if f.name == "language" then Ok(m.(language := Some(v)))
      else Ok(m.(genre := Some(v)))
  }

  /** The fields of all groups, in the order the nested loops visit them. */
  function AllFields(groups: seq<MetaGroup>): seq<MetaField> {
    if groups == [] then [] else AllFields(groups[..|groups| - 1]) + groups[|groups| - 1]
  }

  /** The state after visiting `fs` in order, starting from `Unset`. The
      description is never set. */
  function Fold(fs: seq<MetaField>): (r: Result<Metadata>)
    ensures r.Ok? ==> r.value.description == None
    ensures r.Err? ==> r.error == IndexError
  {
    if fs == [] then Ok(Unset) else Step(Fold(fs[..|fs| - 1]), fs[|fs| - 1])
  }

  /** One more field after the state `r`: a raised exception stays raised. */
  function Step(r: Result<Metadata>, f: MetaField): Result<Metadata> {
    match r
    case Err(e) => Err(e)
    case Ok(m) => Absorb(m, f)
  }

  /** Visiting one more field of a group. */
  lemma FoldNext(seen: seq<MetaField>, group: MetaGroup, i: nat)
    requires i < |group|
    ensures Fold(seen + group[..i + 1]) == Step(Fold(seen + group[..i]), group[i])
  {
    var fs := seen + group[..i + 1];
    assert fs[..|fs| - 1] == seen + group[..i];
    assert fs[|fs| - 1] == group[i];
  }

  /** The fields of `metadata`, cut around group `g`. */
  lemma AllFieldsAround(metadata: seq<MetaGroup>, g: nat)
    requires g < |metadata|
    ensures AllFields(metadata) == AllFields(metadata[..g]) + (metadata[g] + AllFields(metadata[g + 1..]))
  {
    var upto, later := metadata[..g + 1], metadata[g + 1..];
    assert metadata == upto + later;
    AllFieldsAppend(upto, later);
    assert upto[..g] == metadata[..g];
    ConcatAssoc(AllFields(metadata[..g]), metadata[g], AllFields(later));
  }

  function Reduce(groups: seq<MetaGroup>): Result<Metadata> {
    Fold(AllFields(groups))
  }

  lemma {:induction false} AllFieldsAppend(a: seq<MetaGroup>, b: seq<MetaGroup>)
    ensures AllFields(a + b) == AllFields(a) + AllFields(b)
    decreases |b|
  {
    if b == [] {
      assert a + b == a;
    } else {
      var n := |b| - 1;
      assert (a + b)[..|a + b| - 1] == a + b[..n];
      AllFieldsAppend(a, b[..n]);
    }
  }

  /** Once the loop has raised, later fields change nothing. */
  lemma {:induction false} FoldFailureStays(fs: seq<MetaField>, more: seq<MetaField>)
    requires Fold(fs).Err?
    ensures Fold(fs + more) == Fold(fs)
    decreases |more|
  {
    if more != [] {
      var n := |more| - 1;
      assert (fs + more)[..|fs + more| - 1] == fs + more[..n];
      FoldFailureStays(fs, more[..n]);
    } else {
      assert fs + more == fs;
    }
  }

  /** A field overwrites the slot of its own name and no other. */
  lemma SlotAbsorb(m: Metadata, f: MetaField, name: string)
    requires IsRead(name) && Absorb(m, f).Ok?
    ensures Slot(Absorb(m, f).value, name)
         == if f.name == name then Some(ReadValue(name, f.values[0])) else Slot(m, name)
  {
  }

  /** Each read slot ends up holding the (cut) first value of the LAST field
      of that name, and stays `None` when no field has that name. */
  lemma ReduceLastWins(fs: seq<MetaField>, name: string)
    requires IsRead(name) && Fold(fs).Ok?
    ensures Slot(Fold(fs).value, name).Some? <==> exists k :: 0 <= k < |fs| && fs[k].name == name
    ensures Slot(Fold(fs).value, name).Some? ==>
              exists k :: 0 <= k < |fs| && fs[k].name == name && |fs[k].values| > 0
                          && Slot(Fold(fs).value, name).value == ReadValue(name, fs[k].values[0])
                          && forall j :: k < j < |fs| ==> fs[j].name != name
  {
    SlotSet(fs, name);
    if Slot(Fold(fs).value, name).Some? {
      var k := SlotLast(fs, name);
    }
  }

  /** The last field of `fs`, and the state before it. */
  lemma FoldLast(fs: seq<MetaField>)
    requires fs != [] && Fold(fs).Ok?
    ensures Fold(fs[..|fs| - 1]).Ok?
    ensures Fold(fs) == Absorb(Fold(fs[..|fs| - 1]).value, fs[|fs| - 1])
  {
  }

  /** A read slot is set exactly when some field has its name. */
  lemma {:induction false} SlotSet(fs: seq<MetaField>, name: string)
    requires IsRead(name) && Fold(fs).Ok?
    ensures Slot(Fold(fs).value, name).Some? <==> exists k :: 0 <= k < |fs| && fs[k].name == name
    decreases |fs|
  {
    if fs != [] {
      var n := |fs| - 1;
      var init := fs[..n];
      FoldLast(fs);
      SlotSet(init, name);
      SlotAbsorb(Fold(init).value, fs[n], name);
      assert forall k :: 0 <= k < n ==> init[k] == fs[k];
    }
  }

  /** A set slot holds the value of the last field of its name: the field
      at `k`. */
  lemma {:induction false} SlotLast(fs: seq<MetaField>, name: string) returns (k: nat)
    requires IsRead(name) && Fold(fs).Ok? && Slot(Fold(fs).value, name).Some?
    ensures k < |fs| && fs[k].name == name && |fs[k].values| > 0
    ensures Slot(Fold(fs).value, name).value == ReadValue(name, fs[k].values[0])
    ensures forall j :: k < j < |fs| ==> fs[j].name != name
    decreases |fs|
  {
    var n := |fs| - 1;
    var init, f := fs[..n], fs[n];
    FoldLast(fs);
    SlotAbsorb(Fold(init).value, f, name);
    if f.name == name {
      k := n;
    } else {
      k := SlotLast(init, name);
      assert fs[k] == init[k];
      assert forall j :: k < j < n ==> fs[j] == init[j];
    }
  }

  /** The loop raises exactly when a read field has no value. */
  lemma {:induction false} ReduceFails(fs: seq<MetaField>)
    ensures Fold(fs).Err? <==> exists k :: 0 <= k < |fs| && IsRead(fs[k].name) && |fs[k].values| == 0
    decreases |fs|
  {
    if fs != [] {
      var n := |fs| - 1;
      ReduceFails(fs[..n]);
      assert forall k :: 0 <= k < n ==> fs[..n][k] == fs[k];
      if Fold(fs[..n]).Ok? && Fold(fs).Err? {
        assert IsRead(fs[n].name) && |fs[n].values| == 0;
      }
    }
  }

  /** The language slot holds at most two characters, a prefix of the tag. */
  lemma LanguageIsCut(fs: seq<MetaField>)
    requires Fold(fs).Ok? && Fold(fs).value.language.Some?
    ensures |Fold(fs).value.language.value| <= 2
    ensures exists k :: 0 <= k < |fs| && fs[k].name == "language" && |fs[k].values| > 0
                        && Fold(fs).value.language.value == Prefix(fs[k].values[0], 2)
  {
    ReduceLastWins(fs, "language");
  }

  /** The nested loops over the groups and their fields. */
  method ReduceMetadata(metadata: seq<MetaGroup>) returns (r: Result<Metadata>)
    ensures r == Reduce(metadata)
  {
    var title, author, language, genre, description: Option<string> := None, None, None, None, None;
    var g := 0;
    while g < |metadata|
      invariant 0 <= g <= |metadata|
      invariant Fold(AllFields(metadata[..g])) == Ok(Metadata(title, author, language, genre, description))
    {
      var group := metadata[g];
      var seen := AllFields(metadata[..g]);
      var i := 0;
      assert seen + group[..i] == seen;
      while i < |group|
        invariant 0 <= i <= |group|
        invariant Fold(seen + group[..i]) == Ok(Metadata(title, author, language, genre, description))
      {
        var item := group[i];
        FoldNext(seen, group, i);
        if IsRead(item.name) && |item.values| == 0 {
          FailureEnds(metadata, g, i);
          return Err(IndexError);
        }
        if item.name == "title" {
          title := Some(item.values[0]);
        }
        if item.name == "creator" {
          author := Some(item.values[0]);
        }
        if item.name == "language" {
          language := Some(Prefix(item.values[0], 2));
        }
        if item.name == "subject" {
          genre := Some(item.values[0]);
        }
        i := i + 1;
      }
      assert metadata[..g + 1][..g] == metadata[..g];
      assert group[..i] == group;
      g := g + 1;
    }
    assert metadata[..g] == metadata;
    r := Ok(Metadata(title, author, language, genre, description));
  }

  /** A field that raises inside group `g` makes the whole reduction raise. */
  lemma FailureEnds(metadata: seq<MetaGroup>, g: nat, i: nat)
    requires g < |metadata| && i < |metadata[g]|
    requires Fold(AllFields(metadata[..g]) + metadata[g][..i + 1]).Err?
    ensures Reduce(metadata) == Err(IndexError)
  {
    var seen, group, later := AllFields(metadata[..g]), metadata[g], AllFields(metadata[g + 1..]);
    var head, rest := group[..i + 1], group[i + 1..];
    AllFieldsAround(metadata, g);
    assert group == head + rest;
    ConcatAssoc(head, rest, later);
    ConcatAssoc(seen, head, rest + later);
    FoldFailureStays(seen + head, rest + later);
  }

  // ---------------------------------------------------------------------
  // Chapter selection
  // ---------------------------------------------------------------------

  /** The spine items left out by default: front and back matter. */
  const Structural: seq<string> := ["titlepage.xhtml", "imprint.xhtml", "colophon.xhtml", "uncopyright.xhtml"]

  /** The index Python's `lst[n - 1]` reaches in a list of length `len`,
      where negative indices count from the end. */
  function Position(n: int, len: nat): (i: nat)
    requires 0 <= len + n - 1 && n - 1 < len
    ensures i < len
    ensures (n - 1) % len == i
  {
    if n - 1 < 0 then n - 1 + len else n - 1
  }

  /** Which chapters go into the output file, one flag per spine entry. */
  class ChapterSelection {
    var selected: seq<bool>

    /** Every chapter is selected except the structural ones. */
    constructor (spine: seq<string>)
      ensures |selected| == |spine|
      ensures forall i :: 0 <= i < |spine| ==> (selected[i] <==> spine[i] !in Structural)
    {
      var flags: seq<bool> := [];
      var i := 0;
      while i < |spine|
        invariant 0 <= i <= |spine| && |flags| == i
        invariant forall j :: 0 <= j < i ==> (flags[j] <==> spine[j] !in Structural)
      {
        if spine[i] in Structural {
          flags := flags + [false];
        } else {
          flags := flags + [true];
        }
        i := i + 1;
      }
      selected := flags;
    }

    /** Toggle chapter `n` (1-based, as the reader types it). An index
        outside the list raises `IndexError` (`ok` is false) and changes
        nothing; otherwise exactly that one flag flips. */
    method Toggle(n: int) returns (ok: bool)
      modifies this
      ensures ok <==> 0 <= |old(selected)| + n - 1 && n - 1 < |old(selected)|
      ensures ok ==> selected == old(selected)[Position(n, |old(selected)|) := !old(selected)[Position(n, |old(selected)|)]]
      ensures !ok ==> selected == old(selected)
    {
      if 0 <= |selected| + n - 1 && n - 1 < |selected| {
        var i := Position(n, |selected|);
        selected := selected[i := !selected[i]];
        ok := true;
      } else {
        ok := false;
      }
    }
  }

  /** Toggling flips one flag and keeps every other flag and the length. */
  lemma ToggleOnlyOne(flags: seq<bool>, n: int, j: nat)
    requires 0 <= |flags| + n - 1 && n - 1 < |flags| && j < |flags|
    ensures var i := Position(n, |flags|);
            var after := flags[i := !flags[i]];
            |after| == |flags| && (after[j] == flags[j] <==> j != i)
  {
  }

  /** For the numbers shown in the menu, 1 to the number of chapters, the
      toggled flag is that of chapter `n`, at index `n - 1`. */
  lemma PositionInMenu(n: int, len: nat)
    requires 1 <= n <= len
    ensures Position(n, len) == n - 1
  {
  }

  // ---------------------------------------------------------------------
  // Output file name
  // ---------------------------------------------------------------------

  /** The file path with its last `.`-component replaced by `txt`, under
      `./output/`. */
  function OutputName(filepath: string): string {
    var components := Split(filepath, '.');
    "./output/" + Join(components[..|components| - 1] + ["txt"], ".")
  }

  /** A path with an extension keeps its stem and gets `.txt`. */
  lemma OutputNameOfExtension(stem: string, ext: string)
    requires '.' !in ext
    ensures OutputName(stem + "." + ext) == "./output/" + stem + ".txt"
  {
    assert stem + "." + ext == stem + ['.'] + ext;
    SplitLast(stem, '.', ext);
    var components := Split(stem, '.') + [ext];
    assert components[..|components| - 1] == Split(stem, '.');
    JoinAppend(Split(stem, '.'), "txt", ".");
    JoinSplit(stem, '.');
    assert ['.'] == ".";
  }

  /** A path without a dot is replaced whole. */
  lemma OutputNameWithoutDot(filepath: string)
    requires '.' !in filepath
    ensures OutputName(filepath) == "./output/txt"
  {
    SplitNoSep(filepath, '.');
  }

  // ---------------------------------------------------------------------
  // Output file text
  // ---------------------------------------------------------------------

  const RecordSeparator: char := '\U{001E}'
  const ByteOrderMark: char := '\U{FEFF}'

  /** Python's formatting of an optional string. */
  function Show(v: Option<string>): string {
    match v
    case None => "None"
    case Some(s) => s
  }

  /** The block between the two `---` lines. */
  function Header(m: Metadata): string {
    "---\n"
    + "TITL: " + Show(m.title) + "\n"
    + "AUTH: " + Show(m.author) + "\n"
    + "DESC: " + Show(m.description) + "\n"
    + "GNRE: " + Show(m.genre) + "\n"
    + "LANG: " + Show(m.language) + "\n"
    + "---\n"
  }

  /** The header holds U+001E only if one of the values does. */
  lemma HeaderHasNoSeparator(m: Metadata)
    requires RecordSeparator !in Show(m.title) && RecordSeparator !in Show(m.author)
    requires RecordSeparator !in Show(m.description) && RecordSeparator !in Show(m.genre)
    requires RecordSeparator !in Show(m.language)
    ensures RecordSeparator !in Header(m)
  {
  }

  /** The chapter with every U+FEFF dropped, computed as the driver does:
      split at U+FEFF, then joined with nothing between the pieces. */
  function Bomless(chapter: string): (r: string)
    ensures r == Remove(chapter, ByteOrderMark)
  {
    JoinSplitRemoves(chapter, ByteOrderMark);
    Join(Split(chapter, ByteOrderMark), "")
  }

  /** What one selected chapter adds to the file. */
  function Entry(chapter: string): string {
    [RecordSeparator] + Bomless(chapter) + "\n"
  }

  /** What the chapter loop adds for `chapters`, given the flags. */
  function Records(chapters: seq<string>, selected: seq<bool>): string
    requires |chapters| <= |selected|
  {
    if chapters == [] then ""
    else
      var n := |chapters| - 1;
      Records(chapters[..n], selected) + (if selected[n] then Entry(chapters[n]) else "")
  }

  /** The selected chapters, in order. */
  function Kept(chapters: seq<string>, selected: seq<bool>): (r: seq<string>)
    requires |chapters| <= |selected|
    ensures |r| <= |chapters|
  {
    if chapters == [] then []
    else
      var n := |chapters| - 1;
      Kept(chapters[..n], selected) + (if selected[n] then [chapters[n]] else [])
  }

  /** The body each kept chapter contributes after its separator. */
  function Bodies(kept: seq<string>): (r: seq<string>)
    ensures |r| == |kept| && forall j :: 0 <= j < |kept| ==> r[j] == Remove(kept[j], ByteOrderMark) + "\n"
  {
    if kept == [] then [] else Bodies(kept[..|kept| - 1]) + [Remove(kept[|kept| - 1], ByteOrderMark) + "\n"]
  }

  lemma RecordsStep(chapters: seq<string>, selected: seq<bool>, i: nat)
    requires i < |chapters| <= |selected|
    ensures Records(chapters[..i + 1], selected)
         == Records(chapters[..i], selected) + (if selected[i] then Entry(chapters[i]) else "")
  {
    assert chapters[..i + 1][..i] == chapters[..i];
  }

  /** The three writes for a selected chapter add its entry. */
  lemma EntryWritten(head: string, done: string, chapter: string)
    ensures head + done + [RecordSeparator] + Bomless(chapter) + "\n" == head + (done + Entry(chapter))
  {
    var b := Bomless(chapter);
    var before := head + done;
    ConcatAssoc(before, [RecordSeparator], b);
    ConcatAssoc(before, [RecordSeparator] + b, "\n");
    ConcatAssoc(head, done, Entry(chapter));
  }

  /** The writes to the output file, in order. Every chapter index must
      have a flag (the driver builds one per spine entry, and the list call
      returns one chapter per spine entry). */
  method WriteText(m: Metadata, chapters: seq<string>, selected: seq<bool>) returns (text: string)
    requires |chapters| <= |selected|
    ensures text == Header(m) + Records(chapters, selected)
  {
    text := "---\n";
    text := text + "TITL: " + Show(m.title) + "\n";
    text := text + "AUTH: " + Show(m.author) + "\n";
    text := text + "DESC: " + Show(m.description) + "\n";
    text := text + "GNRE: " + Show(m.genre) + "\n";
    text := text + "LANG: " + Show(m.language) + "\n";
    text := text + "---\n";
    var head := text;
    assert head == Header(m);
    var i := 0;
    while i < |chapters|
      invariant 0 <= i <= |chapters|
      invariant text == head + Records(chapters[..i], selected)
    {
      RecordsStep(chapters, selected, i);
      ghost var done := Records(chapters[..i], selected);
      if selected[i] {
        text := text + [RecordSeparator];
        text := text + Bomless(chapters[i]);
        text := text + "\n";
        EntryWritten(head, done, chapters[i]);
      } else {
        assert done + "" == done;
      }
      i := i + 1;
    }
    assert chapters[..i] == chapters;
  }

  /** Splitting the file text at U+001E gives back the header and, for each
      selected chapter in order, its text without U+FEFF and a newline,
      when neither the header nor a chapter holds U+001E. */
  lemma RecordsSplit(m: Metadata, chapters: seq<string>, selected: seq<bool>)
    requires |chapters| <= |selected|
    requires RecordSeparator !in Header(m)
    requires forall k :: 0 <= k < |chapters| ==> RecordSeparator !in chapters[k]
    ensures Split(Header(m) + Records(chapters, selected), RecordSeparator)
         == [Header(m)] + Bodies(Kept(chapters, selected))
  {
    SplitAfter(Header(m), chapters, selected);
  }

  /** `RecordsSplit` for any text `head` before the chapters. */
  lemma {:induction false} SplitAfter(head: string, chapters: seq<string>, selected: seq<bool>)
    requires |chapters| <= |selected|
    requires RecordSeparator !in head
    requires forall k :: 0 <= k < |chapters| ==> RecordSeparator !in chapters[k]
    ensures Split(head + Records(chapters, selected), RecordSeparator)
         == [head] + Bodies(Kept(chapters, selected))
    decreases |chapters|
  {
    if chapters == [] {
      assert head + "" == head;
      SplitNoSep(head, RecordSeparator);
    } else {
      var n := |chapters| - 1;
      assert forall k :: 0 <= k < n ==> chapters[..n][k] == chapters[k];
      SplitAfter(head, chapters[..n], selected);
      assert chapters[n] in chapters;
      SplitStep(head, chapters, selected);
    }
  }

  /** The last chapter's entry adds one piece to the split, when selected. */
  lemma SplitStep(head: string, chapters: seq<string>, selected: seq<bool>)
    requires 0 < |chapters| <= |selected|
    requires RecordSeparator !in chapters[|chapters| - 1]
    requires var init := chapters[..|chapters| - 1];
             Split(head + Records(init, selected), RecordSeparator) == [head] + Bodies(Kept(init, selected))
    ensures Split(head + Records(chapters, selected), RecordSeparator)
         == [head] + Bodies(Kept(chapters, selected))
  {
    var n := |chapters| - 1;
    var init := chapters[..n];
    var rest := Records(init, selected);
    var last := if selected[n] then Entry(chapters[n]) else "";
    assert Records(chapters, selected) == rest + last;
    var before := head + rest;
    ConcatAssoc(head, rest, last);
    var earlier := Bodies(Kept(init, selected));
    if selected[n] {
      var body := BodyOf(chapters[n]);
      ConcatAssoc(before, [RecordSeparator], body);
      SplitLast(before, RecordSeparator, body);
      KeptLast(chapters, selected);
      ConcatAssoc([head], earlier, [body]);
    } else {
      assert before + last == before;
      KeptSkip(chapters, selected);
    }
  }

  /** The body of a chapter's entry holds no U+001E when the chapter holds
      none. */
  lemma BodyOf(chapter: string) returns (body: string)
    ensures body == Remove(chapter, ByteOrderMark) + "\n"
    ensures Entry(chapter) == [RecordSeparator] + body
    ensures RecordSeparator !in chapter ==> RecordSeparator !in body
  {
    body := Remove(chapter, ByteOrderMark) + "\n";
    forall d | d in Remove(chapter, ByteOrderMark)
      ensures d in chapter
    {
      RemoveChars(chapter, ByteOrderMark, d);
    }
  }

  /** The kept chapters are exactly the selected ones, in increasing index
      order: `idx` lists their indices. */
  lemma {:induction false} KeptIndices(chapters: seq<string>, selected: seq<bool>) returns (idx: seq<nat>)
    requires |chapters| <= |selected|
    ensures |idx| == |Kept(chapters, selected)|
    ensures forall j :: 0 <= j < |idx| ==>
              idx[j] < |chapters| && selected[idx[j]] && Kept(chapters, selected)[j] == chapters[idx[j]]
    ensures forall j, j' :: 0 <= j < j' < |idx| ==> idx[j] < idx[j']
    ensures forall i :: 0 <= i < |chapters| && selected[i] ==> i in idx
    decreases |chapters|
  {
    if chapters == [] {
      idx := [];
    } else {
      var n := |chapters| - 1;
      var init := chapters[..n];
      var earlier := KeptIndices(init, selected);
      if selected[n] {
        idx := earlier + [n];
        assert Kept(chapters, selected) == Kept(init, selected) + [chapters[n]];
      } else {
        idx := earlier;
        KeptSkip(chapters, selected);
      }
      forall j | 0 <= j < |earlier|
        ensures Kept(chapters, selected)[j] == chapters[earlier[j]]
      {
        assert init[earlier[j]] == chapters[earlier[j]];
      }
      forall i | 0 <= i < |chapters| && selected[i]
        ensures i in idx
      {
        if i < n {
          assert init[i] == chapters[i];
          assert i in earlier;
        }
      }
    }
  }

  lemma KeptSkip(chapters: seq<string>, selected: seq<bool>)
    requires 0 < |chapters| <= |selected| && !selected[|chapters| - 1]
    ensures Kept(chapters, selected) == Kept(chapters[..|chapters| - 1], selected)
  {
    var init := Kept(chapters[..|chapters| - 1], selected);
    assert init + [] == init;
  }

  lemma KeptLast(chapters: seq<string>, selected: seq<bool>)
    requires 0 < |chapters| <= |selected| && selected[|chapters| - 1]
    ensures var kept := Kept(chapters, selected);
            Bodies(kept) == Bodies(Kept(chapters[..|chapters| - 1], selected))
                            + [Remove(chapters[|chapters| - 1], ByteOrderMark) + "\n"]
  {
    var kept := Kept(chapters, selected);
    assert kept == Kept(chapters[..|chapters| - 1], selected) + [chapters[|chapters| - 1]];
    assert kept[..|kept| - 1] == Kept(chapters[..|chapters| - 1], selected);
  }

  /** The output holds no U+FEFF after the header. */
  lemma {:induction false} RecordsHaveNoMark(chapters: seq<string>, selected: seq<bool>)
    requires |chapters| <= |selected|
    ensures ByteOrderMark !in Records(chapters, selected)
    decreases |chapters|
  {
    if chapters != [] {
      var n := |chapters| - 1;
      RecordsHaveNoMark(chapters[..n], selected);
      assert ByteOrderMark !in Bomless(chapters[n]);
    }
  }

  /** An unselected chapter contributes nothing: chapters that differ only
      where the flag is off give the same text. */
  lemma {:induction false} RecordsIgnoreUnselected(chapters: seq<string>, others: seq<string>, selected: seq<bool>)
    requires |chapters| == |others| <= |selected|
    requires forall k :: 0 <= k < |chapters| && selected[k] ==> chapters[k] == others[k]
    ensures Records(chapters, selected) == Records(others, selected)
    decreases |chapters|
  {
    if chapters != [] {
      var n := |chapters| - 1;
      RecordsIgnoreUnselected(chapters[..n], others[..n], selected);
    }
  }
}
