/** What holds of every parse of a path string. */
module PathTheorems {
  import opened Common
  import opened PathSyntax
  import opened PathText
  import opened PathLaws

  // ----- well-formed strings

  /** An element's text does not look like a header. */
  lemma {:induction false} ElementTextBegins(e: Element, mark: char)
    requires GoodElement(e)
    ensures ElementText(e, mark) != ""
    ensures var c := ElementText(e, mark)[0]; IsDigit(c) || c == '*' || c == '<'
  {
    match e
    case Fixed(n) => assert ElementText(e, mark)[0] == Decimal(n.value)[0];
    case Any(_) =>
    case Choice(items) =>
  }

  lemma {:induction false} HeaderOf(t: Text, o: Options)
    requires WellFormed(t) && Suits(o, t)
    ensures Start(Print(t), o) ==
            Some(Parser(|HeaderText(t.header)|, [], Features(t.header == Nothing, false, false, false, 0, 0),
                        o.wildcard, o.multipath))
  {
    var e := ElementText(t.elements[0], t.mark);
    ElementTextBegins(t.elements[0], t.mark);
    assert Print(t)[|HeaderText(t.header)|] == e[0];
  }

  lemma RestOf(es: seq<Element>)
    requires es != []
    ensures forall j :: 0 <= j < |es[1..]| ==> es[1..][j] == es[j + 1]
    ensures forall j :: 1 <= j < |es| ==> es[j] == es[1..][j - 1]
    ensures AtMostOne(es) ==> AtMostOne(es[1..])
    ensures AtMostOne(es) && es[0].Any? ==> forall j :: 0 <= j < |es[1..]| ==> !es[1..][j].Any?
    ensures AtMostOne(es) && es[0].Choice? ==> forall j :: 0 <= j < |es[1..]| ==> !es[1..][j].Choice?
  {
  }

  /** Elements that are no wildcards (multi-paths) leave the wildcard's (multi-path's) field alone. */
  lemma {:induction false} FeaturesKept(f: Features, es: seq<Element>, k: nat)
    ensures (forall j :: 0 <= j < |es| ==> !es[j].Any?) ==> AddAll(f, es, k).wildcardPos == f.wildcardPos
    ensures (forall j :: 0 <= j < |es| ==> !es[j].Choice?) ==> AddAll(f, es, k).multiCount == f.multiCount
    decreases |es|
  {
    if es != [] {
      FeaturesKept(AddFeatures(f, es[0], k), es[1..], k + 1);
    }
  }

  /** What features a path has, in words. */
  lemma {:induction false} FeaturesMean(f: Features, es: seq<Element>, k: nat)
    requires AtMostOne(es)
    ensures var g := AddAll(f, es, k);
            && g.isBare == f.isBare
            && (g.isHardened <==> f.isHardened || exists j :: 0 <= j < |es| && ElementHardened(es[j]))
            && (g.isWildcard <==> f.isWildcard || exists j :: 0 <= j < |es| && es[j].Any?)
            && (g.isMulti <==> f.isMulti || exists j :: 0 <= j < |es| && es[j].Choice?)
            && (forall j :: 0 <= j < |es| && es[j].Any? ==> g.wildcardPos == k + j)
            && (forall j :: 0 <= j < |es| && es[j].Choice? ==> g.multiCount == |es[j].items|)
    decreases |es|
  {
    if es != [] {
      RestOf(es);
      FeaturesMean(AddFeatures(f, es[0], k), es[1..], k + 1);
      FeaturesKept(AddFeatures(f, es[0], k), es[1..], k + 1);
    }
  }

  lemma StartAllows(t: Text, o: Options, p: Parser)
    requires WellFormed(t) && Suits(o, t) && p.wildcardOk == o.wildcard && p.multiOk == o.multipath
    ensures Allows(p, t.elements)
  {
  }

  lemma {:induction false} AfterHeader(t: Text)
    requires WellFormed(t)
    ensures var k := |HeaderText(t.header)|;
            && k <= |Print(t)| && (k > 0 ==> Print(t)[k - 1] == '/')
            && Print(t)[k..] == ElementText(t.elements[0], t.mark) + ElementsText(t.elements[1..], t.mark)
  {
    var h, u := HeaderText(t.header), ElementText(t.elements[0], t.mark) + ElementsText(t.elements[1..], t.mark);
    assert Print(t) == h + u;
  }

  lemma {:induction false} RunsPrinted(t: Text, o: Options, p: Parser)
    requires WellFormed(t) && Suits(o, t) && Start(Print(t), o) == Some(p)
    ensures ReadAll(o, p, t.elements, Run(Print(t), o, p))
  {
    HeaderOf(t, o);
    AfterHeader(t);
    StartAllows(t, o, p);
    RunsFromElement(Print(t), o, p, t.elements, t.mark);
  }

  lemma {:induction false} PrintedIsAccepted(t: Text, o: Options, p: Parser, q: Parser)
    requires WellFormed(t) && Suits(o, t) && p.path == [] && HasItem(t.elements, o)
    requires p.features == Features(t.header == Nothing, false, false, false, 0, 0)
    requires ReadAll(o, p, t.elements, Some(q))
    ensures Accepted(o, q) && q.path == Meaning(t.elements, o)
    ensures q.features == FeaturesOf(t.elements, t.header == Nothing)
  {
    FeaturesMean(p.features, t.elements, 0);
  }

  /** Every well-formed string is read as what it means, if it has the multi-path item asked for. */
  lemma {:induction false} ParsesPrinted(t: Text, o: Options)
    requires WellFormed(t) && Suits(o, t)
    ensures Parse(Print(t), o) ==
            if HasItem(t.elements, o) then
                Some(Parsed(Meaning(t.elements, o), FeaturesOf(t.elements, t.header == Nothing)))
            else None
  {
    HeaderOf(t, o);
    var p := Start(Print(t), o).value;
    RunsPrinted(t, o, p);
    if HasItem(t.elements, o) {
      PrintedIsAccepted(t, o, p, Run(Print(t), o, p).value);
    }
  }

  // ----- paths of numbers

  function ElementOf(n: nat): Element {
    Fixed(if n < HARDENED then Child(n, false) else Child(n - HARDENED, true))
  }

  function TextOf(path: seq<nat>, header: Header, mark: char): (t: Text)
    ensures |t.elements| == |path| && forall k :: 0 <= k < |path| ==> t.elements[k] == ElementOf(path[k])
  {
    Text(header, seq(|path|, k requires 0 <= k < |path| => ElementOf(path[k])), mark)
  }

  lemma {:induction false} PlainFeatures(path: seq<nat>, header: Header, mark: char)
    ensures FeaturesOf(TextOf(path, header, mark).elements, header == Nothing) ==
            Features(header == Nothing, exists k :: 0 <= k < |path| && path[k] >= HARDENED, false, false, 0, 0)
  {
    var es, f := TextOf(path, header, mark).elements, Features(header == Nothing, false, false, false, 0, 0);
    assert forall k :: 0 <= k < |path| ==> es[k] == ElementOf(path[k]);
    FeaturesMean(f, es, 0);
    FeaturesKept(f, es, 0);
    if exists k :: 0 <= k < |path| && path[k] >= HARDENED {
      var k :| 0 <= k < |path| && path[k] >= HARDENED;
      assert ElementHardened(es[k]);
    }
  }

  lemma PlainText(path: seq<nat>, header: Header, mark: char, o: Options)
    requires 1 <= |path| <= MAX_PATH && forall k :: 0 <= k < |path| ==> path[k] < TWO_32
    requires ValidOptions(o) && o.childNum == 0 && o.multiIndex == 0
    requires IsMark(mark, o.upper) && (o.bare ==> header == Nothing)
    ensures var t := TextOf(path, header, mark);
            WellFormed(t) && Suits(o, t) && HasItem(t.elements, o) && Meaning(t.elements, o) == path
  {
    var es := TextOf(path, header, mark).elements;
    assert forall k :: 0 <= k < |path| ==>
             es[k] == ElementOf(path[k]) && es[k].Fixed? && ElementMeaning(es[k], o) == path[k];
  }

  /** Writing a path of numbers and reading it gives the path and its features. */
  lemma PathRoundTrip(path: seq<nat>, header: Header, mark: char, o: Options)
    requires 1 <= |path| <= MAX_PATH && forall k :: 0 <= k < |path| ==> path[k] < TWO_32
    requires ValidOptions(o) && o.childNum == 0 && o.multiIndex == 0
    requires IsMark(mark, o.upper) && (o.bare ==> header == Nothing)
    ensures Parse(Print(TextOf(path, header, mark)), o) ==
            var hardened := exists k :: 0 <= k < |path| && path[k] >= HARDENED;
            Some(Parsed(path, Features(header == Nothing, hardened, false, false, 0, 0)))
  {
    PlainText(path, header, mark, o);
    PlainFeatures(path, header, mark);
    ParsesPrinted(TextOf(path, header, mark), o);
  }

  lemma OtherIndexSuits(t: Text, o: Options, m: nat, k: nat)
    requires Suits(o, t) && m < |t.elements| && t.elements[m].Choice?
    ensures Suits(o.(multiIndex := k), t)
  {
  }

  lemma OnlyChoiceDiffers(es: seq<Element>, o: Options, m: nat, k: nat)
    requires AtMostOne(es) && m < |es| && es[m].Choice? && o.multiIndex == 0 && es[m].items != []
    ensures HasItem(es, o)
    ensures HasItem(es, o.(multiIndex := k)) <==> k < |es[m].items|
    ensures k < |es[m].items| ==> Meaning(es, o.(multiIndex := k)) == Meaning(es, o)[m := ChildMeaning(es[m].items[k])]
  {
    assert forall j :: 0 <= j < |es| && j != m ==> !es[j].Choice?;
  }

  lemma {:induction false} CountOf(t: Text, m: nat)
    requires WellFormed(t) && m < |t.elements| && t.elements[m].Choice?
    ensures FeaturesOf(t.elements, t.header == Nothing).multiCount == |t.elements[m].items|
  {
    FeaturesMean(Features(t.header == Nothing, false, false, false, 0, 0), t.elements, 0);
  }

  /** The multi-path index only chooses: below the number of items, the length and features
      stay and only the multi-path's element changes; from there on, the string is rejected. */
  lemma {:induction false} MultiIndexChooses(t: Text, o: Options, m: nat, k: nat)
    requires WellFormed(t) && o.multiIndex == 0 && Suits(o, t)
    requires m < |t.elements| && t.elements[m].Choice?
    ensures var items, p := t.elements[m].items, Parse(Print(t), o);
            && p.Some? && |p.value.path| == |t.elements|
            && p.value.path[m] == ChildMeaning(items[0]) && p.value.features.multiCount == |items|
            && Parse(Print(t), o.(multiIndex := k)) ==
               if k < |items| then Some(p.value.(path := p.value.path[m := ChildMeaning(items[k])])) else None
  {
    assert GoodElement(t.elements[m]);
    OtherIndexSuits(t, o, m, k);
    OnlyChoiceDiffers(t.elements, o, m, k);
    ParsesPrinted(t, o);
    ParsesPrinted(t, o.(multiIndex := k));
    CountOf(t, m);
  }

  // ----- any string

  /** What every state of the main loop satisfies: the fields of the features stay in range. */
  predicate InRange(p: Parser) {
    && (forall k :: 0 <= k < |p.path| ==> p.path[k] < TWO_32)
    && (if p.features.isWildcard then p.features.wildcardPos < |p.path| && !p.wildcardOk
        else p.features.wildcardPos == 0)
    && (if p.features.isMulti then 2 <= p.features.multiCount < 255 && !p.multiOk else p.features.multiCount == 0)
  }

  lemma StepInRange(s: string, o: Options, p: Parser)
    requires p.i < |s| && InRange(p) && Step(s, o, p).Some? && o.childNum < HARDENED
    ensures InRange(Step(s, o, p).value)
  {
  }

  lemma {:induction false} RunInRange(s: string, o: Options, p: Parser)
    requires p.i <= |s| && InRange(p) && Run(s, o, p).Some? && o.childNum < HARDENED
    ensures InRange(Run(s, o, p).value)
    decreases |s| - p.i
  {
    if p.i < |s| {
      StepInRange(s, o, p);
      RunInRange(s, o, Step(s, o, p).value);
    }
  }

  function Bit(b: bool): nat {
    if b then 1 else 0
  }

  /** `*features`: the length, the number of multi-path items and the wildcard's position, a
      byte each, and four flags. The code's `|=` on bits that are clear is this sum. */
  function Pack(r: Parsed): nat {
    |r.path| + 0x100 * r.features.multiCount + 0x1_0000 * r.features.wildcardPos
    + 0x100_0000 * (Bit(r.features.isBare) + 2 * Bit(r.features.isHardened) + 4 * Bit(r.features.isWildcard)
                    + 8 * Bit(r.features.isMulti))
  }

  lemma PackedBytes(len: nat, multi: nat, pos: nat, flags: nat)
    requires len < 0x100 && multi < 0x100 && pos < 0x100 && flags < 0x10
    ensures var v := len + 0x100 * multi + 0x1_0000 * pos + 0x100_0000 * flags;
            && v < TWO_32 && v % 0x100 == len && v / 0x100 % 0x100 == multi
            && v / 0x1_0000 % 0x100 == pos && v / 0x100_0000 == flags
  {
  }

  lemma PackedFlags(a: bool, b: bool, c: bool, d: bool)
    ensures var v := Bit(a) + 2 * Bit(b) + 4 * Bit(c) + 8 * Bit(d);
            v < 0x10 && v % 2 == Bit(a) && v / 2 % 2 == Bit(b) && v / 4 % 2 == Bit(c) && v / 8 % 2 == Bit(d)
  {
  }

  lemma AcceptedInRange(s: string, o: Options)
    requires Parse(s, o).Some?
    ensures var r := Parse(s, o).value;
            && 1 <= |r.path| <= MAX_PATH && (forall k :: 0 <= k < |r.path| ==> r.path[k] < TWO_32)
            && (if r.features.isWildcard then r.features.wildcardPos < |r.path| else r.features.wildcardPos == 0)
            && (if r.features.isMulti then 2 <= r.features.multiCount <= 254 else r.features.multiCount == 0)
  {
    RunInRange(s, o, Start(s, o).value);
  }

  /** Of an accepted string every packed field reads back: none overlaps another. */
  lemma FieldsDoNotOverlap(s: string, o: Options)
    requires Parse(s, o).Some?
    ensures var r := Parse(s, o).value;
            var v := Pack(r);
            && v < TWO_32 && v % 0x100 == |r.path| && v / 0x100 % 0x100 == r.features.multiCount
            && v / 0x1_0000 % 0x100 == r.features.wildcardPos
            && v / 0x100_0000 % 2 == Bit(r.features.isBare) && v / 0x100_0000 / 2 % 2 == Bit(r.features.isHardened)
            && v / 0x100_0000 / 4 % 2 == Bit(r.features.isWildcard) && v / 0x100_0000 / 8 % 2 == Bit(r.features.isMulti)
  {
    AcceptedInRange(s, o);
    var r := Parse(s, o).value;
    var f := r.features;
    PackedFlags(f.isBare, f.isHardened, f.isWildcard, f.isMulti);
    PackedBytes(|r.path|, f.multiCount, f.wildcardPos,
                Bit(f.isBare) + 2 * Bit(f.isHardened) + 4 * Bit(f.isWildcard) + 8 * Bit(f.isMulti));
  }

  // ----- wildcards

  /** The two loops have the same state but for the wildcard's value. */
  predicate Alike(p: Parser, q: Parser, c: nat) {
    && p.i == q.i && p.features == q.features && p.wildcardOk == q.wildcardOk && p.multiOk == q.multiOk
    && |p.path| == |q.path|
    && if p.features.isWildcard then
         var w := p.features.wildcardPos;
         w < |p.path| && !p.wildcardOk && q.path == p.path[w := p.path[w] + c]
       else q.path == p.path
  }

  /** Both fail, or both go on alike. */
  predicate BothAlike(x: Option<Parser>, y: Option<Parser>, c: nat) {
    x.Some? == y.Some? && (x.Some? ==> Alike(x.value, y.value, c))
  }

  /** The same element added to both paths. */
  lemma PushedAlike(p: Parser, q: Parser, c: nat, v: nat, i: nat, f: Features, multiOk: bool)
    requires Alike(p, q, c) && f.isWildcard == p.features.isWildcard && f.wildcardPos == p.features.wildcardPos
    ensures Alike(Parser(i, p.path + [v], f, p.wildcardOk, multiOk),
                  Parser(i, q.path + [v], f, q.wildcardOk, multiOk), c)
  {
  }

  lemma {:induction false} NumberAlike(s: string, o: Options, c: nat, p: Parser, q: Parser)
    requires p.i < |s| && Alike(p, q, c)
    ensures BothAlike(Number(s, o, p), Number(s, o.(childNum := c), q), c)
  {
    var j := DigitsEnd(s, p.i);
    var h := MarkAt(s, j, o.upper);
    PushedAlike(p, q, c, NumberValue(s[p.i..j]) + Hardening(h), AfterMark(s, j, o.upper),
                p.features.(isHardened := p.features.isHardened || h), p.multiOk);
  }

  lemma {:induction false} ChosenAlike(s: string, o: Options, c: nat, p: Parser, q: Parser, skipped: Skipped)
    requires p.i < skipped.i <= |s| && Alike(p, q, c)
    ensures BothAlike(Chosen(s, o, p, skipped), Chosen(s, o.(childNum := c), q, skipped), c)
  {
    var x := Chosen(s, o, p, skipped);
    if x.Some? {
      var j := DigitsEnd(s, skipped.i);
      var h := MarkAt(s, j, o.upper);
      PushedAlike(p, q, c, NumberValue(s[skipped.i..j]) + Hardening(h), x.value.i, x.value.features, false);
    }
  }

  /** Where the chosen item of a multi-path starts. */
  function Reached(s: string, o: Options, i: nat): (r: Option<Skipped>)
    requires i < |s|
    ensures r.Some? ==> i < r.value.i <= |s|
  {
    var r := SkipItems(s, i + 1, o.multiIndex, o.upper);
    if i + 1 < |s| && !IsDigit(s[i + 1]) then None
    else if r.Some? && r.value.count < o.multiIndex && r.value.i == i + 1 then None
    else r
  }

  lemma {:induction false} MultiIs(s: string, o: Options, p: Parser)
    requires p.i < |s|
    ensures var r := Reached(s, o, p.i); Multi(s, o, p) == if r.None? then None else Chosen(s, o, p, r.value)
  {
  }

  lemma {:induction false} MultiAlike(s: string, o: Options, c: nat, p: Parser, q: Parser)
    requires p.i < |s| && Alike(p, q, c)
    ensures BothAlike(Multi(s, o, p), Multi(s, o.(childNum := c), q), c)
  {
    MultiIs(s, o, p);
    MultiIs(s, o.(childNum := c), q);
    var r := Reached(s, o, p.i);
    if r.Some? {
      ChosenAlike(s, o, c, p, q, r.value);
    }
  }

  lemma {:induction false} WildcardAlike(s: string, o: Options, c: nat, p: Parser, q: Parser)
    requires p.i < |s| && Alike(p, q, c) && o.childNum == 0
    ensures BothAlike(Wildcard(s, o, p), Wildcard(s, o.(childNum := c), q), c)
  {
  }

  lemma {:induction false} StepAlike(s: string, o: Options, c: nat, p: Parser, q: Parser)
    requires p.i < |s| && Alike(p, q, c) && o.childNum == 0
    ensures BothAlike(Step(s, o, p), Step(s, o.(childNum := c), q), c)
  {
    NumberAlike(s, o, c, p, q);
    MultiAlike(s, o, c, p, q);
    WildcardAlike(s, o, c, p, q);
  }

  lemma {:induction false} RunAlike(s: string, o: Options, c: nat, p: Parser, q: Parser)
    requires p.i <= |s| && Alike(p, q, c) && o.childNum == 0
    ensures BothAlike(Run(s, o, p), Run(s, o.(childNum := c), q), c)
    decreases |s| - p.i
  {
    if p.i < |s| {
      StepAlike(s, o, c, p, q);
      if Step(s, o, p).Some? {
        RunAlike(s, o, c, Step(s, o, p).value, Step(s, o.(childNum := c), q).value);
      }
    }
  }

  /** A child number other than 0 is accepted exactly for the strings accepted with 0 that have
      a wildcard, and it changes nothing but the wildcard's element, to which it is added. */
  lemma WildcardIndependent(s: string, o: Options, c: nat)
    requires o.childNum == 0 && o.wildcard && 0 < c < HARDENED
    ensures var x, y := Parse(s, o), Parse(s, o.(childNum := c));
            && (y.Some? <==> x.Some? && x.value.features.isWildcard)
            && (y.Some? ==>
                  var w := x.value.features.wildcardPos;
                  w < |x.value.path| && y.value == x.value.(path := x.value.path[w := x.value.path[w] + c]))
  {
    var p := Start(s, o);
    if s != "" && p.Some? && ValidOptions(o) {
      RunAlike(s, o, c, p.value, p.value);
    }
  }
}
