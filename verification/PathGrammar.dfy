/** The language of path strings, loose forms included, written as a grammar of parts rather than
    as a loop over characters. */
module PathGrammar {
  import opened Common
  import opened PathSyntax

  // ----- sentences

  /** Digits and a hardened mark; either may be missing. */
  datatype Entry = Entry(digits: string, mark: string)

  /** An item behind the chosen one, and whether a semicolon comes before it. */
  datatype Later = Later(semicolon: bool, entry: Entry)

  /** A number, a slash, a wildcard, or a multi-path: the items before the chosen one, each ended
      by a semicolon, the chosen one, and those after it. */
  datatype Part =
    | Index(entry: Entry)
    | Separator
    | Star(mark: string)
    | Choices(before: seq<Entry>, chosen: Entry, after: seq<Later>)

  function EntryText(e: Entry): string {
    e.digits + e.mark
  }

  function BeforeText(es: seq<Entry>): string {
    if es == [] then "" else EntryText(es[0]) + (";" + BeforeText(es[1..]))
  }

  function SemicolonText(semicolon: bool): string {
    if semicolon then ";" else ""
  }

  function AfterText(ls: seq<Later>): string {
    if ls == [] then ""
    else SemicolonText(ls[0].semicolon) + (EntryText(ls[0].entry) + AfterText(ls[1..]))
  }

  function PartText(x: Part): string {
    match x
    case Index(e) => EntryText(e)
    case Separator => "/"
    case Star(mark) => "*" + mark
    case Choices(before, chosen, after) =>
      "<" + (BeforeText(before) + (EntryText(chosen) + (AfterText(after) + ">")))
  }

  function Sentence(ps: seq<Part>): string {
    if ps == [] then "" else PartText(ps[0]) + Sentence(ps[1..])
  }

  // ----- what parts mean

  function Worth(d: char): nat {
    if '0' <= d <= '9' then d as int - '0' as int else 0
  }

  /** The number that digits write: each is worth its power of ten. */
  function Decimal(digits: string): nat {
    if digits == "" then 0 else Worth(digits[0]) * Pow(10, |digits| - 1) + Decimal(digits[1..])
  }

  function Child(n: nat, mark: string): nat {
    if mark == "" then n else n + 0x8000_0000
  }

  /** A part's element of the path; a slash has none. */
  function Value(x: Part, o: Options): seq<nat> {
    match x
    case Index(e) => [Child(Decimal(e.digits), e.mark)]
    case Separator => []
    case Star(mark) => [Child(o.childNum, mark)]
    case Choices(_, chosen, _) => [Child(Decimal(chosen.digits), chosen.mark)]
  }

  function Values(ps: seq<Part>, o: Options): seq<nat> {
    if ps == [] then [] else Value(ps[0], o) + Values(ps[1..], o)
  }

  predicate AnyBefore(es: seq<Entry>) {
    es != [] && (es[0].mark != "" || AnyBefore(es[1..]))
  }

  predicate AnyAfter(ls: seq<Later>) {
    ls != [] && (ls[0].entry.mark != "" || AnyAfter(ls[1..]))
  }

  predicate IsHardened(x: Part) {
    match x
    case Index(e) => e.mark != ""
    case Separator => false
    case Star(mark) => mark != ""
    case Choices(before, chosen, after) => AnyBefore(before) || chosen.mark != "" || AnyAfter(after)
  }

  predicate AnyHardened(ps: seq<Part>) {
    ps != [] && (IsHardened(ps[0]) || AnyHardened(ps[1..]))
  }

  function Stars(ps: seq<Part>): nat {
    if ps == [] then 0 else Stars(ps[1..]) + if ps[0].Star? then 1 else 0
  }

  function Brackets(ps: seq<Part>): nat {
    if ps == [] then 0 else Brackets(ps[1..]) + if ps[0].Choices? then 1 else 0
  }

  /** How many elements come before the first wildcard. */
  function StarAt(ps: seq<Part>): nat {
    if ps == [] || ps[0].Star? then 0 else StarAt(ps[1..]) + if ps[0].Separator? then 0 else 1
  }

  function Semicolons(ls: seq<Later>): nat {
    if ls == [] then 0 else Semicolons(ls[1..]) + if ls[0].semicolon then 1 else 0
  }

  function Count(x: Part): nat
    requires x.Choices?
  {
    |x.before| + 1 + Semicolons(x.after)
  }

  /** How many items the first multi-path has: one, and one more for each semicolon. */
  function ItemCount(ps: seq<Part>): nat {
    if ps == [] then 0 else if ps[0].Choices? then Count(ps[0]) else ItemCount(ps[1..])
  }

  // ----- what is allowed

  predicate Digits(d: string) {
    forall k :: 0 <= k < |d| ==> '0' <= d[k] <= '9'
  }

  predicate Mark(m: string, upper: bool) {
    m == "" || m == "h" || m == "'" || (upper && m == "H")
  }

  predicate GoodEntry(e: Entry, upper: bool) {
    e.digits != "" && Digits(e.digits) && Mark(e.mark, upper)
  }

  predicate AllBefore(es: seq<Entry>, upper: bool) {
    forall k :: 0 <= k < |es| ==> GoodEntry(es[k], upper)
  }

  /** What may follow a mark: items, where the semicolon may be missing after a mark that is there. */
  predicate GoodAfter(mark: string, ls: seq<Later>, upper: bool)
    decreases |ls|
  {
    ls != [] ==>
      && (mark == "" ==> ls[0].semicolon)
      && GoodEntry(ls[0].entry, upper) && GoodAfter(ls[0].entry.mark, ls[1..], upper)
  }

  /** The chosen item may lack its number, unless it is the first; the others must have one. Its
      number alone must be below 2^31. */
  predicate GoodChoices(before: seq<Entry>, chosen: Entry, after: seq<Later>, o: Options) {
    && |before| == o.multiIndex && AllBefore(before, o.upper)
    && Digits(chosen.digits) && Mark(chosen.mark, o.upper) && Decimal(chosen.digits) < 0x8000_0000
    && (before == [] ==> chosen.digits != "")
    && GoodAfter(chosen.mark, after, o.upper)
    && 2 <= |before| + 1 + Semicolons(after) <= 254
  }

  predicate GoodPart(x: Part, o: Options) {
    match x
    case Index(e) => GoodEntry(e, o.upper) && Decimal(e.digits) < 0x8000_0000
    case Separator => true
    case Star(mark) => Mark(mark, o.upper)
    case Choices(before, chosen, after) => GoodChoices(before, chosen, after, o)
  }

  /** A slash does not follow a slash, a wildcard stands between slashes, and a number does not
      follow another that has no mark. */
  predicate Follows(x: Part, y: Part) {
    && (y.Separator? ==> !x.Separator?)
    && (y.Star? ==> x.Separator?) && (x.Star? ==> y.Separator?)
    && (y.Index? && x.Index? ==> x.entry.mark != "")
  }

  /** Parts that may end a string. */
  predicate GoodParts(ps: seq<Part>, o: Options) {
    && (forall k :: 0 <= k < |ps| ==> GoodPart(ps[k], o))
    && (forall k :: 0 < k < |ps| ==> Follows(ps[k - 1], ps[k]))
    && (ps != [] ==> !ps[|ps| - 1].Separator?)
  }

  predicate GoodHeader(h: string, o: Options) {
    h == "" || (!o.bare && (h == "m" || h == "/" || h == "m/" || (o.upper && (h == "M" || h == "M/"))))
  }

  /** The grammar: a header, then parts, neither beginning nor ending with a slash; at most one
      wildcard and one multi-path, as the flags allow and the options ask for. */
  predicate IsSentence(h: string, ps: seq<Part>, o: Options) {
    && GoodHeader(h, o) && o.childNum < 0x8000_0000 && !o.undefined
    && ps != [] && !ps[0].Separator? && (ps[0].Star? ==> h == "" || h[|h| - 1] == '/')
    && GoodParts(ps, o)
    && (if o.wildcard then Stars(ps) <= 1 else Stars(ps) == 0) && (o.childNum > 0 ==> Stars(ps) == 1)
    && (if o.multipath then Brackets(ps) <= 1 else Brackets(ps) == 0) && (o.multiIndex > 0 ==> Brackets(ps) == 1)
    && |Values(ps, o)| <= 255
  }

  /** The path and the features that a sentence's parts write. */
  function Meaning(h: string, ps: seq<Part>, o: Options): Parsed {
    var star, bracket := Stars(ps) > 0, Brackets(ps) > 0;
    Parsed(Values(ps, o),
           Features(h == "", AnyHardened(ps), star, bracket, if star then StarAt(ps) else 0,
                    if bracket then ItemCount(ps) else 0))
  }
}
