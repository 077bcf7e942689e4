/** BIP32 path strings: what one pass of `path_from_str_n` in src/bip32.c accepts and
    reads, loop iteration by loop iteration. */
module PathSyntax {
  import opened Common

  // ----- characters and numbers

  predicate IsDigit(c: char) {
    '0' <= c <= '9'
  }

  predicate AllDigits(s: string) {
    forall k :: 0 <= k < |s| ==> IsDigit(s[k])
  }

  function NumberValue(s: string): nat
    requires AllDigits(s)
  {
    if s == "" then 0 else 10 * NumberValue(s[..|s| - 1]) + (s[|s| - 1] as int - '0' as int)
  }

  /** The end of the digits that start at `i`. */
  function DigitsEnd(s: string, i: nat): (j: nat)
    requires i <= |s|
    ensures i <= j <= |s| && AllDigits(s[i..j])
    ensures j < |s| ==> !IsDigit(s[j])
    decreases |s| - i
  {
    if i < |s| && IsDigit(s[i]) then DigitsEnd(s, i + 1) else i
  }

  lemma {:induction false} DigitsEndBack(s: string, i: nat, j: nat)
    requires i <= j <= |s| && AllDigits(s[i..j])
    ensures DigitsEnd(s, i) == DigitsEnd(s, j)
    decreases j - i
  {
    if i < j {
      assert s[i..j][0] == s[i] && s[i..j][1..] == s[i + 1..j];
      DigitsEndBack(s, i + 1, j);
    }
  }

  predicate IsMark(c: char, upper: bool) {
    c == '\'' || c == 'h' || (upper && c == 'H')
  }

  /** Whether a hardened mark stands at `i`. */
  predicate MarkAt(s: string, i: nat, upper: bool) {
    i < |s| && IsMark(s[i], upper)
  }

  function AfterMark(s: string, i: nat, upper: bool): (j: nat)
    requires i <= |s|
    ensures i <= j <= |s|
  {
    if MarkAt(s, i, upper) then i + 1 else i
  }

  function Hardening(b: bool): nat {
    if b then HARDENED else 0
  }

  // ----- options and results

  /** The wildcard's and the multi-path's values, and the flags that concern strings. */
  datatype Options = Options(childNum: nat, multiIndex: nat, wildcard: bool, bare: bool, upper: bool, multipath: bool,
                             undefined: bool)

  /** The packed features, apart from the length. */
  datatype Features = Features(isBare: bool, isHardened: bool, isWildcard: bool, isMulti: bool, wildcardPos: nat,
                               multiCount: nat)

  datatype Parsed = Parsed(path: seq<nat>, features: Features)

  /** Where the main loop stands: its position, the path so far, the features so far, and
      whether a wildcard or a multi-path may still come. */
  datatype Parser = Parser(i: nat, path: seq<nat>, features: Features, wildcardOk: bool, multiOk: bool)

  // ----- multi-path items

  /** Items skipped: where, how many, and whether any was hardened. */
  datatype Skipped = Skipped(i: nat, count: nat, hardened: bool)

  /** One item: digits and an optional mark. */
  function Item(s: string, i: nat, upper: bool): (r: Option<Skipped>)
    requires i <= |s|
    ensures r.Some? ==> i < r.value.i <= |s|
  {
    var j := DigitsEnd(s, i);
    if j == i then None else Some(Skipped(AfterMark(s, j, upper), 1, MarkAt(s, j, upper)))
  }

  /** An item and the semicolon that ends it. */
  function EndedItem(s: string, i: nat, upper: bool): (r: Option<Skipped>)
    requires i <= |s|
    ensures r.Some? ==> i < r.value.i <= |s|
  {
    match Item(s, i, upper)
    case None => None
    case Some(x) => if x.i == |s| || s[x.i] != ';' then None else Some(x.(i := x.i + 1))
  }

  /** Lines 136-148: up to `n` items, each ended by a semicolon. */
  function SkipItems(s: string, i: nat, n: nat, upper: bool): (r: Option<Skipped>)
    requires i <= |s|
    ensures r.Some? ==> i <= r.value.i <= |s| && r.value.count <= n
    decreases n
  {
    if n == 0 || i == |s| then Some(Skipped(i, 0, false))
    else
      match EndedItem(s, i, upper)
      case None => None
      case Some(x) =>
        match SkipItems(s, x.i, n - 1, upper)
        case None => None
        case Some(r) => Some(Skipped(r.i, r.count + 1, x.hardened || r.hardened))
  }

  /** Lines 195-207: the items up to the closing bracket; those after a semicolon are counted. */
  function SkipRest(s: string, i: nat, upper: bool): (r: Option<Skipped>)
    requires i <= |s|
    ensures r.Some? ==> i <= r.value.i <= |s| && (r.value.i < |s| ==> s[r.value.i] == '>')
    decreases |s| - i
  {
    if i == |s| || s[i] == '>' then Some(Skipped(i, 0, false))
    else
      match Item(s, if s[i] == ';' then i + 1 else i, upper)
      case None => None
      case Some(x) =>
        match SkipRest(s, x.i, upper)
        case None => None
        case Some(r) => Some(Skipped(r.i, r.count + (if s[i] == ';' then 1 else 0), x.hardened || r.hardened))
  }

  // ----- one iteration of the main loop

  function Number(s: string, o: Options, p: Parser): Option<Parser>
    requires p.i < |s|
  {
    var j := DigitsEnd(s, p.i);
    var v := NumberValue(s[p.i..j]);
    if v >= HARDENED then None
    else
      var h := MarkAt(s, j, o.upper);
      Some(p.(i := AfterMark(s, j, o.upper), path := p.path + [v + Hardening(h)],
              features := p.features.(isHardened := p.features.isHardened || h)))
  }

  /** A slash is only valid after a number, mark, wildcard or multi-path, and before something. */
  function Slash(s: string, o: Options, p: Parser): Option<Parser>
    requires p.i < |s|
  {
    if p.i > 0 && !IsDigit(s[p.i - 1]) && !IsMark(s[p.i - 1], o.upper) && s[p.i - 1] != '*' && s[p.i - 1] != '>' then
      None
    else if p.i + 1 == |s| || s[p.i + 1] == '/' then None
    else
      var h := p.i > 0 && !IsDigit(s[p.i - 1]) && IsMark(s[p.i - 1], o.upper);
      Some(p.(i := p.i + 1, features := p.features.(isHardened := p.features.isHardened || h)))
  }

  function Wildcard(s: string, o: Options, p: Parser): Option<Parser>
    requires p.i < |s|
  {
    if s[p.i] != '*' || !p.wildcardOk || (p.i > 0 && s[p.i - 1] != '/') then None
    else
      var h, k := MarkAt(s, p.i + 1, o.upper), AfterMark(s, p.i + 1, o.upper);
      if k < |s| && s[k] != '/' then None
      else
        Some(p.(i := k, path := p.path + [o.childNum + Hardening(h)], wildcardOk := false,
                features := p.features.(isHardened := p.features.isHardened || h, isWildcard := true,
                                        wildcardPos := |p.path|)))
  }

  /** The chosen item of a multi-path, the first of those not skipped. */
  function Chosen(s: string, o: Options, p: Parser, skipped: Skipped): Option<Parser>
    requires p.i < skipped.i <= |s|
  {
    var j := DigitsEnd(s, skipped.i);
    var v := NumberValue(s[skipped.i..j]);
    if v >= HARDENED then None
    else
      var h := MarkAt(s, j, o.upper);
      match SkipRest(s, AfterMark(s, j, o.upper), o.upper)
      case None => None
      case Some(r) =>
        var n := skipped.count + 1 + r.count;
        if r.i == |s| || n < 2 || n >= 255 then None
        else
          var hardened := p.features.isHardened || skipped.hardened || h || r.hardened;
          Some(p.(i := r.i + 1, path := p.path + [v + Hardening(h)], multiOk := false,
                  features := p.features.(isHardened := hardened, isMulti := true, multiCount := n)))
  }

  function Multi(s: string, o: Options, p: Parser): Option<Parser>
    requires p.i < |s|
  {
    if p.i + 1 < |s| && !IsDigit(s[p.i + 1]) then None
    else
      match SkipItems(s, p.i + 1, o.multiIndex, o.upper)
      case None => None
      case Some(r) => if r.count < o.multiIndex && r.i == p.i + 1 then None else Chosen(s, o, p, r)
  }

  function Step(s: string, o: Options, p: Parser): (q: Option<Parser>)
    requires p.i < |s|
    ensures q.Some? ==> p.i < q.value.i <= |s|
  {
    if s[p.i] == '<' && p.multiOk then Multi(s, o, p)
    else if IsDigit(s[p.i]) then Number(s, o, p)
    else if s[p.i] == '/' then Slash(s, o, p)
    else Wildcard(s, o, p)
  }

  // ----- the whole string

  function Run(s: string, o: Options, p: Parser): Option<Parser>
    requires p.i <= |s|
    decreases |s| - p.i
  {
    if p.i == |s| then Some(p)
    else
      match Step(s, o, p)
      case None => None
      case Some(q) => Run(s, o, q)
  }

  predicate ValidOptions(o: Options) {
    && o.childNum < HARDENED && !o.undefined
    && (o.wildcard || o.childNum == 0)
    && (o.multipath || o.multiIndex == 0)
  }

  /** The characters of the header: an optional `m` and an optional slash. */
  function HeaderEnd(s: string, upper: bool): (i: nat)
    ensures i <= |s|
  {
    var i := if s != "" && (s[0] == 'm' || (upper && s[0] == 'M')) then 1 else 0;
    if i < |s| && s[i] == '/' then i + 1 else i
  }

  function Start(s: string, o: Options): (p: Option<Parser>)
    ensures p.Some? ==> p.value.i <= |s|
  {
    var f := Features(true, false, false, false, 0, 0);
    if o.bare then
      if s != "" && s[0] == '/' then None else Some(Parser(0, [], f, o.wildcard, o.multipath))
    else
      Some(Parser(HeaderEnd(s, o.upper), [], f.(isBare := HeaderEnd(s, o.upper) == 0), o.wildcard, o.multipath))
  }

  predicate Accepted(o: Options, p: Parser) {
    && 1 <= |p.path| <= MAX_PATH
    && (o.childNum == 0 || p.features.isWildcard)
    && (o.multiIndex == 0 || p.features.isMulti)
  }

  function Parse(s: string, o: Options): Option<Parsed> {
    if s == "" || !ValidOptions(o) then None
    else
      match Start(s, o)
      case None => None
      case Some(p) =>
        match Run(s, o, p)
        case None => None
        case Some(q) => if Accepted(o, q) then Some(Parsed(q.path, q.features)) else None
  }
}
