/**
 * `find_relevant_context`: the keyword scan over the knowledge folder. The folder is given
 * as what listing it and reading its entries produce, so the scan itself has no I/O.
 */
module Context {
  import opened Wrappers
  import opened Text

  /** The outcome of one read: the value, or an exception raised while reading. */
  datatype Read<T> = Got(value: T) | Fails

  /** One directory entry: its name, what reading it as UTF-8 text yields, and what extracting
      the text of each of its PDF pages yields. Only the reading its extension selects happens. */
  datatype Entry = Entry(name: string, asText: Read<string>, asPdf: Read<seq<string>>)

  /** The knowledge folder: missing, present but failing to list, or listed in enumeration order. */
  datatype Knowledge = Absent | ListingFails | Listed(entries: seq<Entry>)

  datatype Document = Document(name: string, content: string)

  datatype Kind = PlainText | Pdf | Other

  const Separator: string := "\n\n"
  const PageSeparator: string := "\n"
  const HeaderStart: string := "--- محتوى من ملف: "
  const HeaderEnd: string := " ---\n"

  /** The position of the last '.' in `s`, if any. */
  function LastDot(s: string): (r: Option<nat>)
    ensures r.None? <==> forall k :: 0 <= k < |s| ==> s[k] != '.'
    ensures r.Some? ==> r.value < |s| && s[r.value] == '.' && forall k :: r.value < k < |s| ==> s[k] != '.'
  {
    if s == [] then None
    else if s[|s| - 1] == '.' then Some(|s| - 1)
    else LastDot(s[..|s| - 1])
  }

  /** `os.path.splitext(name)[1]` for a name without a directory part: the name from its last
      dot on, unless only dots precede that dot (".txt", "..txt"), when there is no extension. */
  function Extension(name: string): (ext: string)
    ensures ext != [] ==> ext[0] == '.' && |ext| <= |name| && ext == name[|name| - |ext|..]
    ensures forall k :: 0 < k < |ext| ==> ext[k] != '.'
    ensures ext != [] <==> exists i, j :: 0 <= j < i < |name| && name[i] == '.' && name[j] != '.'
  {
    match LastDot(name)
    case None => ""
    case Some(d) => if exists j :: 0 <= j < d && name[j] != '.' then name[d..] else ""
  }

  /** How the loop treats an entry, by its lower-cased extension. */
  function KindOf(name: string): Kind {
    var ext := Lower(Extension(name));
    if ext == ".txt" || ext == ".csv" then PlainText
    else if ext == ".pdf" then Pdf
    else Other
  }

  /** Reading one entry: a text or CSV file is read whole, a PDF becomes the texts of its pages
      joined by newlines, and any other entry is not opened and has empty content. */
  function Load(e: Entry): Read<Document> {
    match KindOf(e.name)
    case PlainText =>
      (match e.asText
       case Got(t) => Got(Document(e.name, t))
       case Fails => Fails)
    case Pdf =>
      (match e.asPdf
       case Got(pages) => Got(Document(e.name, Join(PageSeparator, pages)))
       case Fails => Fails)
    case Other => Got(Document(e.name, ""))
  }

  /** The reads of all entries, in enumeration order. */
  function Loads(es: seq<Entry>): (rs: seq<Read<Document>>)
    ensures |rs| == |es|
    ensures forall i :: 0 <= i < |es| ==> rs[i] == Load(es[i])
  {
    seq(|es|, i requires 0 <= i < |es| => Load(es[i]))
  }

  /** The values of a sequence of reads when all of them succeed; one failure anywhere fails it. */
  function Collect<T>(rs: seq<Read<T>>): (r: Read<seq<T>>)
    ensures r.Fails? <==> exists i :: 0 <= i < |rs| && rs[i].Fails?
    ensures r.Got? ==> |r.value| == |rs| && forall i :: 0 <= i < |rs| ==> rs[i] == Got(r.value[i])
  {
    if rs == [] then Got([])
    else
      match (Collect(rs[..|rs| - 1]), rs[|rs| - 1])
      case (Got(vs), Got(v)) => Got(vs + [v])
      case _ => Fails
  }

  /** `any(word.lower() in content.lower() for word in words)`. */
  function AnyWordIn(words: seq<string>, content: string): bool {
    if words == [] then false
    else Contains(Lower(words[0]), Lower(content)) || AnyWordIn(words[1..], content)
  }

  /** The scan over the words succeeds exactly when some word, lower-cased, occurs in the
      lower-cased content. */
  lemma {:induction false} AnyWordInSpec(words: seq<string>, content: string)
    ensures AnyWordIn(words, content)
      <==> exists j :: 0 <= j < |words| && Contains(Lower(words[j]), Lower(content))
  {
    if words != [] {
      AnyWordInSpec(words[1..], content);
      assert forall j :: 1 <= j < |words| ==> words[1..][j - 1] == words[j];
    }
  }

  /** A document is kept when its content is non-empty and contains one of the words. */
  predicate Matches(words: seq<string>, content: string) {
    content != "" && AnyWordIn(words, content)
  }

  function Render(d: Document): string {
    HeaderStart + d.name + HeaderEnd + d.content
  }

  /** The rendered blocks of the kept documents, in document order. */
  function Blocks(words: seq<string>, ds: seq<Document>): seq<string> {
    if ds == [] then []
    else
      var last := ds[|ds| - 1];
      Blocks(words, ds[..|ds| - 1]) + (if Matches(words, last.content) then [Render(last)] else [])
  }

  /** Appending a document appends its block exactly when it matches. */
  lemma BlocksAppend(words: seq<string>, ds: seq<Document>, d: Document)
    ensures Blocks(words, ds + [d])
      == Blocks(words, ds) + (if Matches(words, d.content) then [Render(d)] else [])
  {
    assert (ds + [d])[..|ds|] == ds;
  }

  /** The positions of the kept documents, in document order. */
  function KeptIndices(words: seq<string>, ds: seq<Document>): (k: seq<nat>)
    ensures forall j :: 0 <= j < |k| ==> k[j] < |ds|
    ensures forall j, j' :: 0 <= j < j' < |k| ==> k[j] < k[j']
  {
    if ds == [] then []
    else
      KeptIndices(words, ds[..|ds| - 1])
      + (if Matches(words, ds[|ds| - 1].content) then [|ds| - 1] else [])
  }

  /** The kept positions are exactly those of the documents whose content is non-empty and contains
      one of the words; with the increasing order above, each such document is kept once, no other
      is kept, and the folder's order is preserved. */
  lemma {:induction false} KeptIndicesSpec(words: seq<string>, ds: seq<Document>)
    ensures forall i :: 0 <= i < |ds| ==> (i in KeptIndices(words, ds) <==> Matches(words, ds[i].content))
  {
    if ds != [] {
      var n := |ds| - 1;
      var init := ds[..n];
      KeptIndicesSpec(words, init);
      var k0 := KeptIndices(words, init);
      var extra: seq<nat> := if Matches(words, ds[n].content) then [n] else [];
      assert KeptIndices(words, ds) == k0 + extra;
      forall i | 0 <= i < |ds|
        ensures i in k0 + extra <==> Matches(words, ds[i].content)
      {
        if i < n {
          assert init[i] == ds[i];
          assert i !in extra;
        } else {
          assert i !in k0;
        }
      }
    }
  }

  /** The blocks are the renderings of the documents at the kept positions, one each, in order. */
  lemma {:induction false} BlocksAreKeptDocuments(words: seq<string>, ds: seq<Document>)
    ensures |Blocks(words, ds)| == |KeptIndices(words, ds)|
    ensures forall j :: 0 <= j < |KeptIndices(words, ds)| ==>
      Blocks(words, ds)[j] == Render(ds[KeptIndices(words, ds)[j]])
  {
    if ds != [] {
      BlocksAreKeptDocuments(words, ds[..|ds| - 1]);
    }
  }

  /** The value `find_relevant_context(question)` returns for the folder `k`. */
  function RelevantContext(question: string, k: Knowledge): (r: string)
    ensures !k.Listed? ==> r == ""
  {
    match k
    case Absent => ""
    case ListingFails => ""
    case Listed(es) =>
      match Collect(Loads(es))
      case Fails => ""
      case Got(ds) => Join(Separator, Blocks(Split(question), ds))
  }

  /** The imperative form of one iteration's read (chatbot_api.py:39-52), used by the loop of
      `FindRelevantContext`; `Load` is its specification. */
  method ReadEntry(e: Entry) returns (r: Read<Document>)
    ensures r == Load(e)
  {
    var content := "";
    match KindOf(e.name) {
      case PlainText =>
        if e.asText.Fails? {
          return Fails;
        }
        content := e.asText.value;
      case Pdf =>
        if e.asPdf.Fails? {
          return Fails;
        }
        content := Join(PageSeparator, e.asPdf.value);
      case Other =>
    }
    r := Got(Document(e.name, content));
  }

  /** One failing read anywhere in the folder empties the whole context: the failure is not
      confined to its file. */
  lemma ReadFailureGivesNothing(question: string, es: seq<Entry>, i: nat)
    requires i < |es| && Load(es[i]).Fails?
    ensures RelevantContext(question, Listed(es)) == ""
  {
    assert Loads(es)[i].Fails?;
  }

  /** One successful read extends both the collected documents and their blocks. */
  lemma ScanStep(words: seq<string>, outcomes: seq<Read<Document>>, i: nat, docs: seq<Document>, d: Document)
    requires i < |outcomes| && Collect(outcomes[..i]) == Got(docs) && outcomes[i] == Got(d)
    ensures Collect(outcomes[..i + 1]) == Got(docs + [d])
    ensures Blocks(words, docs + [d])
      == Blocks(words, docs) + (if Matches(words, d.content) then [Render(d)] else [])
  {
    assert outcomes[..i + 1][..i] == outcomes[..i];
    BlocksAppend(words, docs, d);
  }

  /** The scan: one pass over the entries that reads each by its kind, keeps the rendered block of
      every matching document and joins the blocks; a failing read abandons the whole scan. */
  method FindRelevantContext(question: string, k: Knowledge) returns (context: string)
    ensures context == RelevantContext(question, k)
  {
    if !k.Listed? {
      return "";
    }
    var es := k.entries;
    var words := Split(question);
    var blocks: seq<string> := [];
    ghost var outcomes := Loads(es);
    ghost var docs: seq<Document> := [];
    for i := 0 to |es|
      invariant Collect(outcomes[..i]) == Got(docs)
      invariant blocks == Blocks(words, docs)
    {
      var r := ReadEntry(es[i]);
      assert outcomes[i] == r;
      if r.Fails? {
        ReadFailureGivesNothing(question, es, i);
        return "";
      }
      var d := r.value;
      ScanStep(words, outcomes, i, docs, d);
      if Matches(words, d.content) {
        blocks := blocks + [Render(d)];
      }
      docs := docs + [d];
    }
    assert outcomes[..|es|] == outcomes;
    context := Join(Separator, blocks);
  }

  lemma {:induction false} NoWordsNoBlocks(ds: seq<Document>)
    ensures Blocks([], ds) == []
  {
    if ds != [] {
      NoWordsNoBlocks(ds[..|ds| - 1]);
    }
  }

  /** An empty or all-space question has no words and so finds no context, whatever the folder holds. */
  lemma BlankQuestionFindsNothing(question: string, k: Knowledge)
    requires AllSpace(question)
    ensures RelevantContext(question, k) == ""
  {
    if k.Listed? && Collect(Loads(k.entries)).Got? {
      NoWordsNoBlocks(Collect(Loads(k.entries)).value);
    }
  }

  /** The blocks, listed as the renderings of the kept documents. */
  lemma BlocksAsKeptRenderings(words: seq<string>, ds: seq<Document>)
    ensures var kept := KeptIndices(words, ds);
            Blocks(words, ds) == seq(|kept|, j requires 0 <= j < |kept| => Render(ds[kept[j]]))
  {
    var kept := KeptIndices(words, ds);
    var blocks := Blocks(words, ds);
    var rendered := seq(|kept|, j requires 0 <= j < |kept| => Render(ds[kept[j]]));
    BlocksAreKeptDocuments(words, ds);
    assert forall j :: 0 <= j < |blocks| ==> blocks[j] == rendered[j];
  }

  /** When every read succeeds, the context is the separator-join of one block per kept document,
      in enumeration order. */
  lemma ContextIsKeptBlocksJoined(question: string, es: seq<Entry>)
    requires Collect(Loads(es)).Got?
    ensures var ds := Collect(Loads(es)).value;
            var kept := KeptIndices(Split(question), ds);
            RelevantContext(question, Listed(es))
              == Join(Separator, seq(|kept|, j requires 0 <= j < |kept| => Render(ds[kept[j]])))
  {
    BlocksAsKeptRenderings(Split(question), Collect(Loads(es)).value);
  }

  /** The joined blocks are empty exactly when no document matches: a matching document always
      contributes its block, which starts with the non-empty header. */
  lemma BlocksEmptyIffNoMatch(words: seq<string>, ds: seq<Document>)
    ensures (Join(Separator, Blocks(words, ds)) == "")
      <==> (forall i :: 0 <= i < |ds| ==> !Matches(words, ds[i].content))
  {
    var kept := KeptIndices(words, ds);
    var blocks := Blocks(words, ds);
    KeptIndicesSpec(words, ds);
    BlocksAreKeptDocuments(words, ds);
    if i :| 0 <= i < |ds| && Matches(words, ds[i].content) {
      assert i in kept;
      assert blocks[0] == Render(ds[kept[0]]);
      assert Render(ds[kept[0]])[0] == HeaderStart[0];
      JoinStartsWithFirst(Separator, blocks);
    }
  }

  /** When every read succeeds, the context is empty exactly when no document matches. */
  lemma ContextEmptyIffNoMatch(question: string, es: seq<Entry>)
    requires Collect(Loads(es)).Got?
    ensures var ds := Collect(Loads(es)).value;
            (RelevantContext(question, Listed(es)) == "")
              <==> (forall i :: 0 <= i < |ds| ==> !Matches(Split(question), ds[i].content))
  {
    BlocksEmptyIffNoMatch(Split(question), Collect(Loads(es)).value);
  }

  /** Every character is whitespace or lies in the Arabic block U+0600..U+06FF, which has no cased
      letters. */
  ghost predicate ArabicOrSpace(s: string) {
    forall i :: 0 <= i < |s| ==> IsSpace(s[i]) || '\U{600}' <= s[i] <= '\U{6FF}'
  }

  /** Words that start with a non-space character below U+0600 never occur in text made only of
      whitespace and the Arabic block: lower-casing leaves such text as it is and keeps the word's
      first character a non-space character below U+0600, under Python's `lower()` as under `Lower`. */
  lemma LatinWordsMissArabicText(words: seq<string>, content: string)
    requires forall j :: 0 <= j < |words| ==> words[j] != [] && !IsSpace(words[j][0]) && words[j][0] < '\U{600}'
    requires ArabicOrSpace(content)
    ensures !AnyWordIn(words, content)
  {
    AnyWordInSpec(words, content);
    forall j | 0 <= j < |words|
      ensures !Contains(Lower(words[j]), Lower(content))
    {
      var w := Lower(words[j]);
      ContainsSpec(w, Lower(content));
    }
  }

  /** A question written below U+0600 finds nothing in a folder whose readable files hold only
      Arabic text and whitespace. */
  lemma LatinQuestionMissesArabicFiles(question: string, es: seq<Entry>)
    requires forall k :: 0 <= k < |question| ==> question[k] < '\U{600}'
    requires Collect(Loads(es)).Got?
    requires var ds := Collect(Loads(es)).value; forall i :: 0 <= i < |ds| ==> ArabicOrSpace(ds[i].content)
    ensures RelevantContext(question, Listed(es)) == ""
  {
    var words := Split(question);
    var ds := Collect(Loads(es)).value;
    SplitWordsBelow(question, '\U{600}');
    forall i | 0 <= i < |ds|
      ensures !Matches(words, ds[i].content)
    {
      LatinWordsMissArabicText(words, ds[i].content);
    }
    ContextEmptyIffNoMatch(question, es);
  }

  /** Each kept block occurs whole in the context. */
  lemma BlockOccursInContext(question: string, es: seq<Entry>, j: nat)
    requires Collect(Loads(es)).Got?
    requires j < |Blocks(Split(question), Collect(Loads(es)).value)|
    ensures Contains(Blocks(Split(question), Collect(Loads(es)).value)[j], RelevantContext(question, Listed(es)))
  {
    JoinContainsPart(Separator, Blocks(Split(question), Collect(Loads(es)).value), j);
  }

  /** An entry whose extension is not one the loop reads is never part of the context. */
  lemma OtherEntryNeverKept(question: string, es: seq<Entry>, i: nat)
    requires i < |es| && KindOf(es[i].name) == Other && Collect(Loads(es)).Got?
    ensures i !in KeptIndices(Split(question), Collect(Loads(es)).value)
  {
    var ds := Collect(Loads(es)).value;
    assert Loads(es)[i] == Got(ds[i]);
    assert ds[i].content == "";
    KeptIndicesSpec(Split(question), ds);
  }
}
