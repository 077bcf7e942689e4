/** Well-formed path strings, as BIP32 and BIP389 write them, and what they mean. */
module PathText {
  import opened Common
  import opened PathSyntax

  datatype Child = Child(value: nat, hardened: bool)

  datatype Element = Fixed(child: Child) | Any(hardened: bool) | Choice(items: seq<Child>)

  /** What a string starts with: `m/`, a slash, or nothing. */
  datatype Header = Master | Slash | Nothing

  /** A path, and how to write it: the header and the character that marks hardened elements. */
  datatype Text = Text(header: Header, elements: seq<Element>, mark: char)

  // ----- writing

  function DigitChar(d: nat): char
    requires d < 10
  {
    (d + '0' as int) as char
  }

  function Decimal(n: nat): (s: string)
    ensures s != "" && AllDigits(s)
  {
    if n < 10 then [DigitChar(n)] else Decimal(n / 10) + [DigitChar(n % 10)]
  }

  function MarkText(hardened: bool, mark: char): string {
    if hardened then [mark] else ""
  }

  function ChildText(n: Child, mark: char): string {
    Decimal(n.value) + MarkText(n.hardened, mark)
  }

  /** The items from the `k`th on, each after a semicolon. */
  function ItemsText(items: seq<Child>, mark: char): string {
    if items == [] then "" else ";" + ChildText(items[0], mark) + ItemsText(items[1..], mark)
  }

  function ElementText(e: Element, mark: char): string {
    match e
    case Fixed(n) => ChildText(n, mark)
    case Any(hardened) => "*" + MarkText(hardened, mark)
    case Choice(items) =>
      if items == [] then "<>"
      else "<" + ChildText(items[0], mark) + ItemsText(items[1..], mark) + ">"
  }

  /** The elements, each after a slash. */
  function ElementsText(es: seq<Element>, mark: char): string {
    if es == [] then "" else "/" + ElementText(es[0], mark) + ElementsText(es[1..], mark)
  }

  function HeaderText(h: Header): string {
    match h
    case Master => "m/"
    case Slash => "/"
    case Nothing => ""
  }

  function Print(t: Text): string
    requires t.elements != []
  {
    HeaderText(t.header) + ElementText(t.elements[0], t.mark) + ElementsText(t.elements[1..], t.mark)
  }

  // ----- meaning

  function ChildMeaning(n: Child): nat {
    n.value + Hardening(n.hardened)
  }

  function ElementMeaning(e: Element, o: Options): nat
    requires e.Choice? ==> o.multiIndex < |e.items|
  {
    match e
    case Fixed(n) => ChildMeaning(n)
    case Any(hardened) => o.childNum + Hardening(hardened)
    case Choice(items) => ChildMeaning(items[o.multiIndex])
  }

  /** Every multi-path has the item that is asked for. */
  predicate HasItem(es: seq<Element>, o: Options) {
    forall k :: 0 <= k < |es| && es[k].Choice? ==> o.multiIndex < |es[k].items|
  }

  function Meaning(es: seq<Element>, o: Options): (path: seq<nat>)
    requires HasItem(es, o)
    ensures |path| == |es|
  {
    seq(|es|, k requires 0 <= k < |es| => ElementMeaning(es[k], o))
  }

  predicate AnyHardened(items: seq<Child>) {
    exists k :: 0 <= k < |items| && items[k].hardened
  }

  predicate ElementHardened(e: Element) {
    match e
    case Fixed(n) => n.hardened
    case Any(hardened) => hardened
    case Choice(items) => AnyHardened(items)
  }

  /** The features after one more element, the `k`th. */
  function AddFeatures(f: Features, e: Element, k: nat): Features {
    var g := f.(isHardened := f.isHardened || ElementHardened(e));
    match e
    case Fixed(_) => g
    case Any(_) => g.(isWildcard := true, wildcardPos := k)
    case Choice(items) => g.(isMulti := true, multiCount := |items|)
  }

  /** The features after the elements `es`, the first of them the `k`th. */
  function AddAll(f: Features, es: seq<Element>, k: nat): Features
    decreases |es|
  {
    if es == [] then f else AddAll(AddFeatures(f, es[0], k), es[1..], k + 1)
  }

  function FeaturesOf(es: seq<Element>, isBare: bool): Features {
    AddAll(Features(isBare, false, false, false, 0, 0), es, 0)
  }

  // ----- well-formedness

  predicate GoodChild(n: Child) {
    n.value < HARDENED
  }

  predicate GoodElement(e: Element) {
    match e
    case Fixed(n) => GoodChild(n)
    case Any(_) => true
    case Choice(items) => 2 <= |items| < 255 && forall k :: 0 <= k < |items| ==> GoodChild(items[k])
  }

  /** No two elements are wildcards, nor multi-paths. */
  predicate AtMostOne(es: seq<Element>) {
    && (forall j, k :: 0 <= j < k < |es| && es[j].Any? ==> !es[k].Any?)
    && (forall j, k :: 0 <= j < k < |es| && es[j].Choice? ==> !es[k].Choice?)
  }

  predicate WellFormed(t: Text) {
    && 1 <= |t.elements| <= MAX_PATH
    && (forall k :: 0 <= k < |t.elements| ==> GoodElement(t.elements[k]))
    && AtMostOne(t.elements)
  }

  /** The options allow what the text uses, and ask for nothing it lacks. */
  predicate Suits(o: Options, t: Text) {
    && ValidOptions(o) && IsMark(t.mark, o.upper)
    && (o.bare ==> t.header == Nothing)
    && (if exists k :: 0 <= k < |t.elements| && t.elements[k].Any? then o.wildcard else o.childNum == 0)
    && (if exists k :: 0 <= k < |t.elements| && t.elements[k].Choice? then o.multipath else o.multiIndex == 0)
  }
}
