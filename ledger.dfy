/**
 * The ledger-import document: a `Dokumenti` root holding one journal header
 * (`Nalog_za_knjiženje`), the journal lines (`Stavka_naloga_za_knjizenje`) and one account
 * descriptor (`Konto`) per account used, as records and as the element tree they are written as.
 */
module Ledger {
  import opened Wrappers
  import opened Numerals

  /** The fixed id of the generated journal; line `rb` gets id `NalogId + rb`. */
  const NalogId: int := 900000

  /** `str(NalogId)`. */
  const NalogIdText: string := "900000"

  /** The item type used when the journal type name is unknown. */
  const DefaultTipId: int := 24

  /** The element tags the document uses; `TagName` gives each one's name as written. */
  datatype Tag =
    | Dokumenti | NalogZaKnjizenje | SifraPreduzeca | FkNalogZaKnjizenjeId | Status | TipId | Tip
    | Broj | OrgBroj | Datum | Napomena | SpoljniBroj
    | StavkaNalogaZaKnjizenje | FkStavkaNalogaZaKnjizenjeId | FkKpKontoId | RedniBroj | DatumPromene
    | BrojDokumenta | Duguje | Potrazuje | Opis | Subanalitika | ValutaId | Kurs
    | KontoTag | Naziv | DozvoljenoKnjizenje | Devizni

  function TagName(t: Tag): string {
    match t
    case Dokumenti => "Dokumenti"
    case NalogZaKnjizenje => "Nalog_za_knjiženje"
    case SifraPreduzeca => "Šifra_x0020_preduzeca"
    case FkNalogZaKnjizenjeId => "fk_nk_nalog_za_knjizenje_id"
    case Status => "Status"
    case TipId => "tip_x0020_id"
    case Tip => "Tip"
    case Broj => "Broj"
    case OrgBroj => "Org_x0020_broj"
    case Datum => "Datum"
    case Napomena => "Napomena"
    case SpoljniBroj => "Spoljni_x0020_broj"
    case StavkaNalogaZaKnjizenje => "Stavka_naloga_za_knjizenje"
    case FkStavkaNalogaZaKnjizenjeId => "fk_nk_stavka_naloga_za_knjizenje_id"
    case FkKpKontoId => "fk_kp_konto_id"
    case RedniBroj => "Redni_x0020_broj"
    case DatumPromene => "Datum_x0020_promene"
    case BrojDokumenta => "Broj_x0020_dokumenta"
    case Duguje => "Duguje"
    case Potrazuje => "Potrazuje"
    case Opis => "Opis"
    case Subanalitika => "Subanalitika"
    case ValutaId => "Valuta_x0020_ID"
    case Kurs => "Kurs"
    case KontoTag => "Konto"
    case Naziv => "Naziv"
    case DozvoljenoKnjizenje => "Dozvoljeno_x0020_knjiženje"
    case Devizni => "Devizni"
  }

  /** An XML element: tag, text and child elements (no attributes are used). */
  datatype Element = Element(tag: Tag, text: string, children: seq<Element>)

  function Leaf(tag: Tag, text: string): Element {
    Element(tag, text, [])
  }

  /** `str(n)` for an integer. */
  function IntText(n: int): string {
    if n < 0 then "-" + NatToDigits(-n) else NatToDigits(n)
  }

  /** A non-negative integer is written in decimal digits that read back as it. */
  lemma IntTextReadsBack(n: int)
    requires n >= 0
    ensures AllDigits(IntText(n)) && DigitsValue(IntText(n)) == n
  {
  }

  /** A calendar date, as the date parser returns it. */
  datatype Date = Date(year: nat, month: nat, day: nat)

  /** The dates the format is meant for: four-digit years, months 1-12, days 1-31. */
  predicate ValidDate(d: Date) {
    1000 <= d.year <= 9999 && 1 <= d.month <= 12 && 1 <= d.day <= 31
  }

  /** The suffix every written date carries: midnight in UTC+2. */
  const MidnightSuffix: string := "T00:00:00+02:00"

  /** `strftime('%Y-%m-%dT00:00:00+02:00')`: the year's digits, a dash, and the fixed suffix at the end. */
  function IsoMidnight(d: Date): (s: string)
    ensures |s| >= 15 + 6 && s[|s| - 15..] == MidnightSuffix
    ensures var y := NatToDigits(d.year); |s| > |y| && s[..|y|] == y && s[|y|] == '-'
  {
    NatToDigits(d.year) + "-" + PadLeft(d.month, 2) + "-" + PadLeft(d.day, 2) + MidnightSuffix
  }

  /** Reads the date back from the first ten characters of a written date. */
  function DateOfIso(s: string): Date
    requires |s| >= 10 && AllDigits(s[..4]) && AllDigits(s[5..7]) && AllDigits(s[8..10])
  {
    Date(DigitsValue(s[..4]), DigitsValue(s[5..7]), DigitsValue(s[8..10]))
  }

  /** A valid date is written in 25 characters, ends with the fixed suffix and reads back unchanged. */
  lemma IsoMidnightRoundTrip(d: Date)
    requires ValidDate(d)
    ensures var s := IsoMidnight(d);
      && |s| == 25 && s[10..] == MidnightSuffix && s[4] == '-' && s[7] == '-'
      && AllDigits(s[..4]) && AllDigits(s[5..7]) && AllDigits(s[8..10])
      && DateOfIso(s) == d
  {
    var y := NatToDigits(d.year);
    var m := PadLeft(d.month, 2);
    var dd := PadLeft(d.day, 2);
    FourDigitYear(d.year);
    assert Pow10(2) == 100;
    var s := IsoMidnight(d);
    var ym := y + "-" + m;
    var ymd := ym + "-" + dd;
    assert |ym| == 7 && |ymd| == 10;
    assert s == ymd + MidnightSuffix;
    assert s[..10] == ymd && s[10..] == MidnightSuffix;
    assert ymd[..7] == ym && ymd[8..10] == dd;
    assert ym[..4] == y && ym[5..7] == m;
    assert s[..4] == y;
    assert s[5..7] == m;
    assert s[8..10] == dd;
  }

  /** A year from 1000 to 9999 is written with exactly four digits. */
  lemma FourDigitYear(y: nat)
    requires 1000 <= y <= 9999
    ensures |NatToDigits(y)| == 4
  {
    assert Pow10(4) == 10000 && Pow10(3) == 1000;
    NumeralLength(y, 4);
    var r := NatToDigits(y);
    if |r| < 4 {
      DigitsBound(r);
      Pow10Monotone(|r|, 3);
    }
  }

  /** Two valid dates are written alike only when they are the same date. */
  lemma IsoMidnightInjective(a: Date, b: Date)
    requires ValidDate(a) && ValidDate(b) && IsoMidnight(a) == IsoMidnight(b)
    ensures a == b
  {
    IsoMidnightRoundTrip(a);
    IsoMidnightRoundTrip(b);
  }

  /** The journal header. */
  datatype Header = Header(sifra: string, tipId: int, tip: string, datum: string, note: string)

  /** `Nalog_za_knjiženje` with its ten children, in the order they are written. */
  function HeaderElement(h: Header): (e: Element)
    ensures e.tag == NalogZaKnjizenje && e.text == "" && |e.children| == 10
    ensures forall i :: 0 <= i < |e.children| ==> e.children[i].children == []
  {
    Element(NalogZaKnjizenje, "", [
      Leaf(SifraPreduzeca, h.sifra),
      Leaf(FkNalogZaKnjizenjeId, NalogIdText),
      Leaf(Status, "2"),
      Leaf(TipId, IntText(h.tipId)),
      Leaf(Tip, h.tip),
      Leaf(Broj, "<" + NalogIdText + ">"),
      Leaf(OrgBroj, "<" + NalogIdText + ">"),
      Leaf(Datum, h.datum),
      Leaf(Napomena, h.note),
      Leaf(SpoljniBroj, h.note)
    ])
  }

  /**
   * One journal line: sequence number `rb`, account id, optional change date, document number
   * ("" when absent), the debit and credit amounts that are written, and the description.
   */
  datatype Item = Item(rb: int, kontoId: int, date: Option<string>, document: string,
                       duguje: Option<string>, potrazuje: Option<string>, opis: string)

  /** The four children every line starts with. */
  function ItemHead(rb: int, kontoId: int): seq<Element> {
    HeadOf(IntText(NalogId + rb), IntText(kontoId), IntText(rb))
  }

  /** The four head children for the given line id, account id and sequence number texts. */
  function HeadOf(idText: string, kontoText: string, rbText: string): seq<Element> {
    [ Leaf(FkStavkaNalogaZaKnjizenjeId, idText),
      Leaf(FkNalogZaKnjizenjeId, NalogIdText),
      Leaf(FkKpKontoId, kontoText),
      Leaf(RedniBroj, rbText) ]
  }

  /** A child for a present value, nothing for an absent one. */
  function Optional(tag: Tag, v: Option<string>): seq<Element> {
    if v.Some? then [Leaf(tag, v.value)] else []
  }

  /** A child for a non-empty text, nothing for "". */
  function NonEmpty(tag: Tag, text: string): seq<Element> {
    if text != "" then [Leaf(tag, text)] else []
  }

  /** The three children every line ends with. */
  const ItemTail: seq<Element> := [Leaf(Subanalitika, ""), Leaf(ValutaId, "1"), Leaf(Kurs, "0")]

  /** `Stavka_naloga_za_knjizenje`, its optional children written only when present. */
  function ItemElement(it: Item): (e: Element)
    ensures e.tag == StavkaNalogaZaKnjizenje && e.text == "" && 7 <= |e.children| <= 12
    ensures e.children[..4] == ItemHead(it.rb, it.kontoId) && e.children[|e.children| - 3..] == ItemTail
  {
    Element(StavkaNalogaZaKnjizenje, "", LineChildren(ItemHead(it.rb, it.kontoId), it))
  }

  /** The children of a line, in the order they are appended: the head, then the rest. */
  function LineChildren(head: seq<Element>, it: Item): (r: seq<Element>)
    ensures |head| + 3 <= |r| <= |head| + 8
    ensures r[..|head|] == head && r[|r| - 3..] == ItemTail
  {
    head + Optional(DatumPromene, it.date) + NonEmpty(BrojDokumenta, it.document)
    + Optional(Duguje, it.duguje) + Optional(Potrazuje, it.potrazuje) + NonEmpty(Opis, it.opis) + ItemTail
  }

  /** The text of the first child with the given tag, if any. */
  function ChildText(children: seq<Element>, tag: Tag): Option<string> {
    if children == [] then None
    else if children[0].tag == tag then Some(children[0].text)
    else ChildText(children[1..], tag)
  }

  lemma {:induction false} ChildTextConcat(a: seq<Element>, b: seq<Element>, tag: Tag)
    ensures ChildText(a + b, tag) == Or(ChildText(a, tag), ChildText(b, tag))
  {
    if a != [] {
      assert (a + b)[1..] == a[1..] + b;
      ChildTextConcat(a[1..], b, tag);
    } else {
      assert a + b == b;
    }
  }

  lemma ChildTextCons(e: Element, rest: seq<Element>, tag: Tag)
    ensures ChildText([e] + rest, tag) == if e.tag == tag then Some(e.text) else ChildText(rest, tag)
  {
    assert ([e] + rest)[1..] == rest;
  }

  /** What each part holds under a tag. */
  lemma HeadFields(rb: int, kontoId: int, tag: Tag)
    ensures ChildText(ItemHead(rb, kontoId), tag) ==
      if tag == FkStavkaNalogaZaKnjizenjeId then Some(IntText(NalogId + rb))
      else if tag == FkNalogZaKnjizenjeId then Some(NalogIdText)
      else if tag == FkKpKontoId then Some(IntText(kontoId))
      else if tag == RedniBroj then Some(IntText(rb))
      else None
  {
    HeadOfFields(IntText(NalogId + rb), IntText(kontoId), IntText(rb), tag);
  }

  lemma HeadOfFields(a: string, c: string, d: string, tag: Tag)
    ensures ChildText(HeadOf(a, c, d), tag) ==
      if tag == FkStavkaNalogaZaKnjizenjeId then Some(a)
      else if tag == FkNalogZaKnjizenjeId then Some(NalogIdText)
      else if tag == FkKpKontoId then Some(c)
      else if tag == RedniBroj then Some(d)
      else None
  {
    var e0, e1, e2, e3 := Leaf(FkStavkaNalogaZaKnjizenjeId, a), Leaf(FkNalogZaKnjizenjeId, NalogIdText), Leaf(FkKpKontoId, c), Leaf(RedniBroj, d);
    var t3 := [e3];
    var t2 := [e2] + t3;
    var t1 := [e1] + t2;
    assert HeadOf(a, c, d) == [e0] + t1;
    ChildTextCons(e3, [], tag);
    assert [e3] + [] == t3;
    ChildTextCons(e2, t3, tag);
    ChildTextCons(e1, t2, tag);
    ChildTextCons(e0, t1, tag);
  }

  lemma TailFields(tag: Tag)
    ensures ChildText(ItemTail, tag) ==
      if tag == Subanalitika then Some("") else if tag == ValutaId then Some("1") else if tag == Kurs then Some("0") else None
  {
    var t := ItemTail;
    assert t == [t[0]] + ([t[1]] + ([t[2]] + []));
    ChildTextCons(t[0], [t[1]] + ([t[2]] + []), tag);
    ChildTextCons(t[1], [t[2]] + [], tag);
    ChildTextCons(t[2], [], tag);
  }

  lemma OptionalFields(t: Tag, v: Option<string>, tag: Tag)
    ensures ChildText(Optional(t, v), tag) == if tag == t then v else None
  {
    if v.Some? {
      ChildTextCons(Leaf(t, v.value), [], tag);
      assert Optional(t, v) == [Leaf(t, v.value)] + [];
    }
  }

  lemma NonEmptyFields(t: Tag, text: string, tag: Tag)
    ensures ChildText(NonEmpty(t, text), tag) == if tag == t && text != "" then Some(text) else None
  {
    if text != "" {
      ChildTextCons(Leaf(t, text), [], tag);
      assert NonEmpty(t, text) == [Leaf(t, text)] + [];
    }
  }

  /** What the children after the head hold under a tag the head does not have. */
  function BodyField(it: Item, tag: Tag): Option<string> {
    if tag == DatumPromene then it.date
    else if tag == BrojDokumenta then (if it.document == "" then None else Some(it.document))
    else if tag == Duguje then it.duguje
    else if tag == Potrazuje then it.potrazuje
    else if tag == Opis then (if it.opis == "" then None else Some(it.opis))
    else if tag == Subanalitika then Some("")
    else if tag == ValutaId then Some("1")
    else if tag == Kurs then Some("0")
    else None
  }

  lemma LineChildrenFields(head: seq<Element>, it: Item, tag: Tag)
    ensures ChildText(LineChildren(head, it), tag) ==
      if ChildText(head, tag).Some? then ChildText(head, tag) else BodyField(it, tag)
  {
    var d, b, o := Optional(DatumPromene, it.date), NonEmpty(BrojDokumenta, it.document), NonEmpty(Opis, it.opis);
    var du, po := Optional(Duguje, it.duguje), Optional(Potrazuje, it.potrazuje);
    FirstOfSeven(head, d, b, du, po, o, ItemTail, tag);
    OptionalFields(DatumPromene, it.date, tag);
    NonEmptyFields(BrojDokumenta, it.document, tag);
    OptionalFields(Duguje, it.duguje, tag);
    OptionalFields(Potrazuje, it.potrazuje, tag);
    NonEmptyFields(Opis, it.opis, tag);
    TailFields(tag);
  }

  /** The first of two values that is present. */
  function Or(a: Option<string>, b: Option<string>): Option<string> {
    if a.Some? then a else b
  }

  /** A search over seven parts laid end to end finds the first part that has the tag. */
  lemma FirstOfSeven(a: seq<Element>, b: seq<Element>, c: seq<Element>, d: seq<Element>,
                     e: seq<Element>, f: seq<Element>, g: seq<Element>, tag: Tag)
    ensures ChildText(a + b + c + d + e + f + g, tag)
      == Or(Or(Or(Or(Or(Or(ChildText(a, tag), ChildText(b, tag)), ChildText(c, tag)), ChildText(d, tag)),
         ChildText(e, tag)), ChildText(f, tag)), ChildText(g, tag))
  {
    var p2 := a + b;
    var p3 := p2 + c;
    var p4 := p3 + d;
    var p5 := p4 + e;
    var p6 := p5 + f;
    ChildTextConcat(a, b, tag);
    ChildTextConcat(p2, c, tag);
    ChildTextConcat(p3, d, tag);
    ChildTextConcat(p4, e, tag);
    ChildTextConcat(p5, f, tag);
    ChildTextConcat(p6, g, tag);
  }

  /**
   * Reading a line back: each optional child is there exactly when its field is present or
   * non-empty, and holds that field; the line id is `NalogId + rb`, the journal id `NalogId`.
   */
  lemma ItemElementFields(it: Item, tag: Tag)
    ensures ChildText(ItemElement(it).children, tag) ==
      if tag == FkStavkaNalogaZaKnjizenjeId then Some(IntText(NalogId + it.rb))
      else if tag == FkNalogZaKnjizenjeId then Some(NalogIdText)
      else if tag == FkKpKontoId then Some(IntText(it.kontoId))
      else if tag == RedniBroj then Some(IntText(it.rb))
      else BodyField(it, tag)
  {
    HeadFields(it.rb, it.kontoId, tag);
    LineChildrenFields(ItemHead(it.rb, it.kontoId), it, tag);
  }

  /** One step of the search from position `i`. */
  lemma ChildTextStep(c: seq<Element>, i: nat, tag: Tag)
    requires i < |c|
    ensures ChildText(c[i..], tag) == if c[i].tag == tag then Some(c[i].text) else ChildText(c[i + 1..], tag)
  {
    assert c[i..][1..] == c[i + 1..];
  }

  /** Reading the header back under a tag gives the value it was built from, or nothing. */
  lemma HeaderElementFields(h: Header, tag: Tag)
    ensures ChildText(HeaderElement(h).children, tag) ==
      if tag == SifraPreduzeca then Some(h.sifra)
      else if tag == FkNalogZaKnjizenjeId then Some(NalogIdText)
      else if tag == Status then Some("2")
      else if tag == TipId then Some(IntText(h.tipId))
      else if tag == Tip then Some(h.tip)
      else if tag == Broj || tag == OrgBroj then Some("<" + NalogIdText + ">")
      else if tag == Datum then Some(h.datum)
      else if tag == Napomena || tag == SpoljniBroj then Some(h.note)
      else None
  {
    var c := HeaderElement(h).children;
    assert c == c[..5] + c[5..];
    ChildTextConcat(c[..5], c[5..], tag);
    HeaderFront(h, tag);
    HeaderBack(h, tag);
  }

  /** The first five children of the header. */
  lemma HeaderFront(h: Header, tag: Tag)
    ensures ChildText(HeaderElement(h).children[..5], tag) ==
      if tag == SifraPreduzeca then Some(h.sifra)
      else if tag == FkNalogZaKnjizenjeId then Some(NalogIdText)
      else if tag == Status then Some("2")
      else if tag == TipId then Some(IntText(h.tipId))
      else if tag == Tip then Some(h.tip)
      else None
  {
    var c := HeaderElement(h).children;
    var f := [Leaf(SifraPreduzeca, h.sifra), Leaf(FkNalogZaKnjizenjeId, NalogIdText), Leaf(Status, "2"),
              Leaf(TipId, IntText(h.tipId)), Leaf(Tip, h.tip)];
    assert c[..5] == f;
    FiveLeaves(f[0], f[1], f[2], f[3], f[4], tag);
    assert f == [f[0], f[1], f[2], f[3], f[4]];
  }

  /** The last five children of the header. */
  lemma HeaderBack(h: Header, tag: Tag)
    ensures ChildText(HeaderElement(h).children[5..], tag) ==
      if tag == Broj || tag == OrgBroj then Some("<" + NalogIdText + ">")
      else if tag == Datum then Some(h.datum)
      else if tag == Napomena || tag == SpoljniBroj then Some(h.note)
      else None
  {
    var c := HeaderElement(h).children;
    var f := [Leaf(Broj, "<" + NalogIdText + ">"), Leaf(OrgBroj, "<" + NalogIdText + ">"), Leaf(Datum, h.datum),
              Leaf(Napomena, h.note), Leaf(SpoljniBroj, h.note)];
    assert c[5..] == f;
    FiveLeaves(f[0], f[1], f[2], f[3], f[4], tag);
    assert f == [f[0], f[1], f[2], f[3], f[4]];
  }

  /** The search over five children, written out. */
  lemma FiveLeaves(e0: Element, e1: Element, e2: Element, e3: Element, e4: Element, tag: Tag)
    ensures ChildText([e0, e1, e2, e3, e4], tag) ==
      if e0.tag == tag then Some(e0.text)
      else if e1.tag == tag then Some(e1.text)
      else if e2.tag == tag then Some(e2.text)
      else if e3.tag == tag then Some(e3.text)
      else if e4.tag == tag then Some(e4.text)
      else None
  {
    var c := [e0, e1, e2, e3, e4];
    assert c[0..] == c && c[5..] == [];
    ChildTextStep(c, 0, tag);
    ChildTextStep(c, 1, tag);
    ChildTextStep(c, 2, tag);
    ChildTextStep(c, 3, tag);
    ChildTextStep(c, 4, tag);
  }

  /** One account descriptor. */
  datatype KontoBlock = KontoBlock(id: int, broj: string, naziv: string)

  /** `Konto` with its five children. */
  function BlockElement(b: KontoBlock): (e: Element)
    ensures e.tag == KontoTag && e.text == "" && |e.children| == 5
    ensures forall i :: 0 <= i < |e.children| ==> e.children[i].children == []
  {
    Element(KontoTag, "", [
      Leaf(FkKpKontoId, IntText(b.id)),
      Leaf(Broj, b.broj),
      Leaf(Naziv, b.naziv),
      Leaf(DozvoljenoKnjizenje, "1"),
      Leaf(Devizni, "0")
    ])
  }

  /** Reading a descriptor back under a tag gives its id, code, name and the two fixed flags, or nothing. */
  lemma BlockElementFields(b: KontoBlock, tag: Tag)
    ensures ChildText(BlockElement(b).children, tag) ==
      if tag == FkKpKontoId then Some(IntText(b.id))
      else if tag == Broj then Some(b.broj)
      else if tag == Naziv then Some(b.naziv)
      else if tag == DozvoljenoKnjizenje then Some("1")
      else if tag == Devizni then Some("0")
      else None
  {
    var c := BlockElement(b).children;
    FiveLeaves(c[0], c[1], c[2], c[3], c[4], tag);
    assert c == [c[0], c[1], c[2], c[3], c[4]];
  }

  /** The whole document as records. */
  datatype Document = Document(header: Header, items: seq<Item>, blocks: seq<KontoBlock>)

  /** The elements of the lines, one per line, in order. */
  function ItemElements(items: seq<Item>): (r: seq<Element>)
    ensures |r| == |items|
  {
    if items == [] then [] else ItemElements(items[..|items| - 1]) + [ItemElement(items[|items| - 1])]
  }

  function BlockElements(blocks: seq<KontoBlock>): (r: seq<Element>)
    ensures |r| == |blocks| && forall i :: 0 <= i < |blocks| ==> r[i] == BlockElement(blocks[i])
  {
    seq(|blocks|, i requires 0 <= i < |blocks| => BlockElement(blocks[i]))
  }

  /** The root element `Dokumenti`: the header, then the lines, then the descriptors. */
  function DocumentElement(doc: Document): Element {
    Element(Dokumenti, "", [HeaderElement(doc.header)] + ItemElements(doc.items) + BlockElements(doc.blocks))
  }

  /** The element list grows by one element when one more line is written. */
  lemma ItemElementsSnoc(items: seq<Item>, it: Item)
    ensures ItemElements(items + [it]) == ItemElements(items) + [ItemElement(it)]
  {
    assert (items + [it])[..|items|] == items;
  }

  lemma BlockElementsSnoc(blocks: seq<KontoBlock>, b: KontoBlock)
    ensures BlockElements(blocks + [b]) == BlockElements(blocks) + [BlockElement(b)]
  {
    var x, y := BlockElements(blocks + [b]), BlockElements(blocks) + [BlockElement(b)];
    forall i | 0 <= i < |x|
      ensures x[i] == y[i]
    {
      if i < |blocks| {
        assert (blocks + [b])[i] == blocks[i];
      }
    }
  }
}
