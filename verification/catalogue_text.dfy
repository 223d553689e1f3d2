/**
  The wording of the catalogue description in Portuguese, and the document
  `create_single_document_with_filenames` returns.
 */
module CatalogueText {
  import opened Wrappers
  import opened Text
  import opened Months
  import opened Catalogue

  // ---------------------------------------------------------------------------
  // Fixed phrases
  // ---------------------------------------------------------------------------

  /** Closes the single-file sentence of a year, before the file's name. */
  const OnlyFileInFolder := "outros meses não foram listados, e nessa pasta encontramos apenas "
    + "um manual, documento, arquivo, mps, mig ou organograma chamado "

  /** Follows the month's name when the month has one file, before the file's name. */
  const OnlyDocumentCalled := " temos somente o manual, documento, arquivo, mps, mig ou organograma chamado "

  /** Follows the file count of a month, before the files' names. */
  const DocumentsCalled := " manuais, documentos, arquivos, mps, migs ou organogramas, chamados: "

  /** Opens the undated line when there is one undated file. */
  const OnlyUndatedFile := "Em nossos documentos, fora de pastas de data, temos somente este arquivo: "

  /** Opens the undated line when there are several undated files. */
  const UndatedFilesIntro := "Em nossos documentos, fora de pastas de data, encontramos estes arquivos: "

  /** Opens the closing line. */
  const ClosingIntro := "Essas são as listas de todos os documentos, manuais, migs, mps e organogramas que podemos "
    + "resolver, listar e usar para nossas respostas, esses documentos vão ser muito úteis: "

  // ---------------------------------------------------------------------------
  // Wording of each kind of line
  // ---------------------------------------------------------------------------

  /** A month as the text names it: `Julho (mês 07)`. */
  function MonthWithNumeral(m: string): string {
    MonthFullName(m) + " (mês " + m + ")"
  }

  /** The single-file sentence up to the file's name. */
  function SingleFileOpening(y: string, m: string): string {
    "No ano de " + y + ", temos somente o mês de " + MonthWithNumeral(m) + ", " + OnlyFileInFolder
  }

  function SpellSingleFile(y: string, m: string, f: string): string {
    SingleFileOpening(y, m) + f + "."
  }

  function SpellYearHeader(y: string, months: seq<string>): string {
    "No ano de " + y + ", temos os meses de "
    + Join(", ", seq(|months|, i requires 0 <= i < |months| => MonthWithNumeral(months[i])))
    + "."
  }

  function SpellMonthFiles(m: string, files: seq<string>): string {
    if |files| == 1 then
      "Em " + MonthFullName(m) + OnlyDocumentCalled + files[0] + "."
    else
      "Em " + MonthFullName(m) + " temos " + NatToString(|files|) + DocumentsCalled + Join(", ", files) + "."
  }

  function SpellUndated(names: seq<string>): string {
    if |names| == 1 then OnlyUndatedFile + names[0] + "."
    else UndatedFilesIntro + Join(", ", names) + "."
  }

  function SpellClosing(names: seq<string>): string {
    ClosingIntro + Join(", ", names)
  }

  /** The exact wording of a line. */
  function Spell(l: Line): string {
    match l
    case SingleFile(y, m, f) => SpellSingleFile(y, m, f)
    case YearHeader(y, ms) => SpellYearHeader(y, ms)
    case MonthFiles(m, files) => SpellMonthFiles(m, files)
    case Undated(names) => SpellUndated(names)
    case Closing(names) => SpellClosing(names)
  }

  // ---------------------------------------------------------------------------
  // Each line spells out the names it names
  // ---------------------------------------------------------------------------

  lemma {:induction false} SpellSingleFileNames(y: string, m: string, f: string)
    ensures Occurs(f, SpellSingleFile(y, m, f))
  {
    OccursMiddle(SingleFileOpening(y, m), f, ".");
  }

  lemma {:induction false} SpellMonthFilesNames(m: string, files: seq<string>, i: nat)
    requires i < |files|
    ensures Occurs(files[i], SpellMonthFiles(m, files))
  {
    if |files| == 1 {
      OccursMiddle("Em " + MonthFullName(m) + OnlyDocumentCalled, files[0], ".");
    } else {
      JoinContains(", ", files, i);
      OccursWithin(files[i], Join(", ", files), "Em " + MonthFullName(m) + " temos " + NatToString(|files|) + DocumentsCalled, ".");
    }
  }

  lemma {:induction false} SpellUndatedNames(names: seq<string>, i: nat)
    requires i < |names|
    ensures Occurs(names[i], SpellUndated(names))
  {
    if |names| == 1 {
      OccursMiddle(OnlyUndatedFile, names[0], ".");
    } else {
      JoinContains(", ", names, i);
      OccursWithin(names[i], Join(", ", names), UndatedFilesIntro, ".");
    }
  }

  lemma {:induction false} SpellClosingNames(names: seq<string>, i: nat)
    requires i < |names|
    ensures Occurs(names[i], SpellClosing(names))
  {
    JoinContains(", ", names, i);
    OccursEnd(Join(", ", names), ClosingIntro);
    OccursTrans(names[i], Join(", ", names), SpellClosing(names));
  }

  /**
    A month with one file gets the singular sentence; any other month gets the
    plural one, whose stated count reads back as the number of files.
   */
  lemma {:induction false} SpellMonthFilesNumber(m: string, files: seq<string>)
    ensures |files| == 1 ==> "Em " + MonthFullName(m) + OnlyDocumentCalled <= SpellMonthFiles(m, files)
    ensures |files| != 1 ==>
              exists count :: AllDigits(count) && DecimalValue(count) == |files|
                && "Em " + MonthFullName(m) + " temos " + count + DocumentsCalled <= SpellMonthFiles(m, files)
  {
    var opening := "Em " + MonthFullName(m);
    if |files| == 1 {
      assert SpellMonthFiles(m, files) == (opening + OnlyDocumentCalled) + (files[0] + ".");
    } else {
      var count := NatToString(|files|);
      NatToStringRoundTrip(|files|);
      assert SpellMonthFiles(m, files) == (opening + " temos " + count + DocumentsCalled) + (Join(", ", files) + ".");
    }
  }

  /** The undated line is worded in the singular exactly for one name. */
  lemma {:induction false} SpellUndatedNumber(names: seq<string>)
    ensures |names| == 1 ==> OnlyUndatedFile <= SpellUndated(names)
    ensures |names| != 1 ==> UndatedFilesIntro <= SpellUndated(names)
  {
    if |names| == 1 {
      assert SpellUndated(names) == OnlyUndatedFile + (names[0] + ".");
    } else {
      assert SpellUndated(names) == UndatedFilesIntro + (Join(", ", names) + ".");
    }
  }

  /** A line's wording spells out every file name the line names. */
  lemma {:induction false} SpellNamesFiles(l: Line, i: nat)
    requires i < |NamedFiles(l)|
    ensures Occurs(NamedFiles(l)[i], Spell(l))
  {
    match l {
      case SingleFile(y, m, f) => SpellSingleFileNames(y, m, f);
      case MonthFiles(m, files) => SpellMonthFilesNames(m, files, i);
      case Undated(names) => SpellUndatedNames(names, i);
      case Closing(names) => SpellClosingNames(names, i);
    }
  }

  /** Each month of a year's opening sentence is spelled out with its full name and numeral. */
  lemma {:induction false} SpellYearHeaderMonths(y: string, months: seq<string>, i: nat)
    requires i < |months|
    ensures Occurs(MonthWithNumeral(months[i]), SpellYearHeader(y, months))
  {
    var named := seq(|months|, k requires 0 <= k < |months| => MonthWithNumeral(months[k]));
    JoinContains(", ", named, i);
    OccursWithin(named[i], Join(", ", named), "No ano de " + y + ", temos os meses de ", ".");
  }

  // ---------------------------------------------------------------------------
  // The document
  // ---------------------------------------------------------------------------

  /** The document's metadata, fixed text. */
  const DocumentMetadata: seq<(string, string)> := [
    ("description", "Lista de manuais, arquivos, documentos, organogramas e arquivos que podemos responder."),
    ("file_name", "Lista de documentos"),
    ("keywords", "Manuais, Organogramas, Documentos, Arquivos, MPS, MIG"),
    ("summary", "Entre 2011 e 2024, há uma grande variedade de manuais e documentos organizados por ano e mês: "
      + "alguns anos possuem apenas um mês e um único arquivo, enquanto outros registram diversos períodos, "
      + "cada um com vários manuais. Adicionalmente, há alguns arquivos “soltos”, fora dessas pastas de data. "
      + "No fim, existe uma listagem completa de todos os itens, cobrindo instruções bancárias, regulamentos "
      + "internos e outros materiais de suporte.")
  ]

  /** The returned document: its text and its metadata. */
  datatype Document = Document(text: string, metadata: seq<(string, string)>)

  /** The description's lines, spelled out. */
  function SpellAll(lines: seq<Line>): (r: seq<string>)
    ensures |r| == |lines| && forall i :: 0 <= i < |lines| ==> r[i] == Spell(lines[i])
  {
    if |lines| == 0 then [] else [Spell(lines[0])] + SpellAll(lines[1..])
  }

  /**
    `create_single_document_with_filenames`, for the directories `os.walk`
    yields, in that order. Every file met anywhere in the walk is named in
    the text, whether or not its folder carries a date.
   */
  function CreateSingleDocument(walk: seq<Dir>): (d: Document)
    ensures forall i, f :: 0 <= i < |walk| && f in walk[i].files ==> Occurs(f, d.text)
  {
    var lines := Lines(Collect(walk));
    WalkedFilesInJoin(walk);
    Document(Join("\n", SpellAll(lines)), DocumentMetadata)
  }

  /** Each walked file is listed by the closing line, so it occurs in the joined lines. */
  lemma {:induction false} WalkedFilesInJoin(walk: seq<Dir>)
    ensures forall i, f :: 0 <= i < |walk| && f in walk[i].files ==> Occurs(f, Join("\n", SpellAll(Lines(Collect(walk)))))
  {
    ClosingLineListsAllFiles(walk);
    LastNamesInJoin(Lines(Collect(walk)));
  }

  /** Every name the last line names occurs in the joined lines. */
  lemma {:induction false} LastNamesInJoin(lines: seq<Line>)
    requires |lines| > 0 && Last(lines).Closing?
    ensures forall f :: f in Last(lines).names ==> Occurs(f, Join("\n", SpellAll(lines)))
  {
    forall f | f in Last(lines).names
      ensures Occurs(f, Join("\n", SpellAll(lines)))
    {
      var k :| 0 <= k < |Last(lines).names| && Last(lines).names[k] == f;
      NamedInJoin(lines, |lines| - 1, k);
    }
  }

  /** A name a line names appears in the lines' spelled-out join. */
  lemma {:induction false} NamedInJoin(lines: seq<Line>, j: nat, i: nat)
    requires j < |lines| && i < |NamedFiles(lines[j])|
    ensures Occurs(NamedFiles(lines[j])[i], Join("\n", SpellAll(lines)))
  {
    SpellNamesFiles(lines[j], i);
    JoinContains("\n", SpellAll(lines), j);
    OccursTrans(NamedFiles(lines[j])[i], Spell(lines[j]), Join("\n", SpellAll(lines)));
  }

  /** A name a line of the description names appears in the document text. */
  lemma {:induction false} NamedInText(walk: seq<Dir>, j: nat, i: nat)
    requires j < |Lines(Collect(walk))| && i < |NamedFiles(Lines(Collect(walk))[j])|
    ensures Occurs(NamedFiles(Lines(Collect(walk))[j])[i], CreateSingleDocument(walk).text)
  {
    NamedInJoin(Lines(Collect(walk)), j, i);
  }
}
