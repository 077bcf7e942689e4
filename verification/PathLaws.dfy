/** What the path parser makes of well-formed strings. */
module PathLaws {
  import opened Common
  import opened PathSyntax
  import opened PathText

  // ----- numbers and marks

  lemma {:induction false} DecimalValue(n: nat)
    ensures NumberValue(Decimal(n)) == n
  {
    if n >= 10 {
      DecimalValue(n / 10);
      assert Decimal(n)[..|Decimal(n)| - 1] == Decimal(n / 10);
    }
  }

  /** What follows does not continue a number or a mark. */
  predicate Ends(rest: string, upper: bool) {
    rest == "" || (!IsDigit(rest[0]) && !IsMark(rest[0], upper))
  }

  lemma Suffix(s: string, i: nat, t: string, rest: string)
    requires i <= |s| && s[i..] == t + rest
    ensures i + |t| <= |s| && s[i..i + |t|] == t && s[i + |t|..] == rest
    ensures t != "" ==> s[i] == t[0]
    ensures rest != "" ==> i + |t| < |s| && s[i + |t|] == rest[0]
  {
    assert t != "" ==> s[i] == s[i..][0];
    assert |s[i..]| == |t| + |rest|;
    assert s[i..i + |t|] == s[i..][..|t|];
    assert s[i + |t|..] == s[i..][|t|..];
    if rest != "" {
      assert s[i + |t|] == s[i..][|t|];
    }
  }

  lemma {:induction false} DigitsAt(s: string, i: nat, d: string, rest: string)
    requires i <= |s| && s[i..] == d + rest && AllDigits(d)
    requires rest == "" || !IsDigit(rest[0])
    ensures DigitsEnd(s, i) == i + |d| && s[i..DigitsEnd(s, i)] == d
  {
    Suffix(s, i, d, rest);
    DigitsEndBack(s, i, i + |d|);
  }

  lemma MarkIsAt(s: string, i: nat, hardened: bool, mark: char, upper: bool, rest: string)
    requires i <= |s| && s[i..] == MarkText(hardened, mark) + rest
    requires IsMark(mark, upper) && Ends(rest, upper)
    ensures MarkAt(s, i, upper) == hardened && AfterMark(s, i, upper) == i + |MarkText(hardened, mark)|
  {
    Suffix(s, i, MarkText(hardened, mark), rest);
  }

  /** A number and its mark. */
  lemma {:induction false} ChildAt(s: string, i: nat, n: Child, mark: char, upper: bool, rest: string)
    requires i <= |s| && s[i..] == ChildText(n, mark) + rest
    requires IsMark(mark, upper) && Ends(rest, upper)
    ensures var j := DigitsEnd(s, i);
            && j == i + |Decimal(n.value)| && NumberValue(s[i..j]) == n.value
            && MarkAt(s, j, upper) == n.hardened && AfterMark(s, j, upper) == i + |ChildText(n, mark)|
  {
    var d, m := Decimal(n.value), MarkText(n.hardened, mark);
    assert s[i..] == d + (m + rest);
    DigitsAt(s, i, d, m + rest);
    DecimalValue(n.value);
    Suffix(s, i, d, m + rest);
    MarkIsAt(s, i + |d|, n.hardened, mark, upper, rest);
  }

  lemma {:induction false} ItemAt(s: string, i: nat, n: Child, mark: char, upper: bool, rest: string)
    requires i <= |s| && s[i..] == ChildText(n, mark) + rest
    requires IsMark(mark, upper) && Ends(rest, upper)
    ensures Item(s, i, upper) == Some(Skipped(i + |ChildText(n, mark)|, 1, n.hardened))
  {
    ChildAt(s, i, n, mark, upper, rest);
  }

  // ----- multi-path items

  /** The items from the first on, and the closing bracket. */
  function Bracketed(items: seq<Child>, mark: char): string
    requires items != []
  {
    ChildText(items[0], mark) + ItemsText(items[1..], mark) + ">"
  }

  lemma AnyHardenedFirst(items: seq<Child>)
    requires items != []
    ensures AnyHardened(items) == (items[0].hardened || AnyHardened(items[1..]))
  {
    if AnyHardened(items[1..]) {
      var k :| 0 <= k < |items[1..]| && items[1..][k].hardened;
      assert items[k + 1].hardened;
    }
    if AnyHardened(items) {
      var k :| 0 <= k < |items| && items[k].hardened;
      if k > 0 {
        assert items[1..][k - 1].hardened;
      }
    }
  }

  /** The only item is not ended by a semicolon. */
  lemma {:induction false} LastItem(s: string, i: nat, items: seq<Child>, mark: char, upper: bool, rest: string)
    requires i <= |s| && |items| == 1 && s[i..] == Bracketed(items, mark) + rest && IsMark(mark, upper)
    ensures EndedItem(s, i, upper) == None
  {
    var c := ChildText(items[0], mark);
    assert s[i..] == c + (">" + rest);
    ItemAt(s, i, items[0], mark, upper, ">" + rest);
    Suffix(s, i, c, ">" + rest);
  }

  lemma {:induction false} BracketedFirst(items: seq<Child>, mark: char, rest: string)
    requires |items| > 1
    ensures Bracketed(items, mark) + rest == ChildText(items[0], mark) + (";" + (Bracketed(items[1..], mark) + rest))
  {
    var c, t := ChildText(items[0], mark), ItemsText(items[1..], mark);
    assert t == ";" + ChildText(items[1..][0], mark) + ItemsText(items[1..][1..], mark);
    assert t + ">" == ";" + Bracketed(items[1..], mark);
    assert (c + t + ">") + rest == c + ((t + ">") + rest);
  }

  lemma {:induction false} EndedAt(s: string, i: nat, n: Child, mark: char, upper: bool, rest: string)
    requires i <= |s| && s[i..] == ChildText(n, mark) + (";" + rest) && IsMark(mark, upper)
    ensures var x := EndedItem(s, i, upper);
            x.Some? && x.value.hardened == n.hardened && s[x.value.i..] == rest
  {
    var c := ChildText(n, mark);
    ItemAt(s, i, n, mark, upper, ";" + rest);
    Suffix(s, i, c, ";" + rest);
    Suffix(s, i + |c|, ";", rest);
  }

  /** Any other item is. */
  lemma {:induction false} FirstItem(s: string, i: nat, items: seq<Child>, mark: char, upper: bool, rest: string)
    requires i <= |s| && |items| > 1 && s[i..] == Bracketed(items, mark) + rest && IsMark(mark, upper)
    ensures var x := EndedItem(s, i, upper);
            x.Some? && x.value.hardened == items[0].hardened && s[x.value.i..] == Bracketed(items[1..], mark) + rest
  {
    BracketedFirst(items, mark, rest);
    EndedAt(s, i, items[0], mark, upper, Bracketed(items[1..], mark) + rest);
  }

  lemma {:induction false} SkipItemsStep(s: string, i: nat, k: nat, upper: bool, x: Skipped, r: Skipped)
    requires i < |s| && k > 0 && EndedItem(s, i, upper) == Some(x) && SkipItems(s, x.i, k - 1, upper) == Some(r)
    ensures SkipItems(s, i, k, upper) == Some(Skipped(r.i, r.count + 1, x.hardened || r.hardened))
  {
  }

  lemma {:induction false} BracketedNotEmpty(s: string, i: nat, items: seq<Child>, mark: char, rest: string)
    requires i <= |s| && items != [] && s[i..] == Bracketed(items, mark) + rest
    ensures i < |s|
  {
  }

  /** Skipping `k` of the items leaves the others. */
  lemma {:induction false} SkipsItems(s: string, i: nat, items: seq<Child>, k: nat, mark: char, upper: bool,
        rest: string)
    requires i <= |s| && k < |items| && s[i..] == Bracketed(items, mark) + rest && IsMark(mark, upper)
    ensures var r := SkipItems(s, i, k, upper);
            r.Some? && r.value.count == k && r.value.hardened == AnyHardened(items[..k])
            && s[r.value.i..] == Bracketed(items[k..], mark) + rest
    decreases k
  {
    BracketedNotEmpty(s, i, items, mark, rest);
    if k == 0 {
      assert items[0..] == items;
    } else {
      FirstItem(s, i, items, mark, upper, rest);
      var x := EndedItem(s, i, upper).value;
      SkipsItems(s, x.i, items[1..], k - 1, mark, upper, rest);
      SkipItemsStep(s, i, k, upper, x, SkipItems(s, x.i, k - 1, upper).value);
      assert items[1..][k - 1..] == items[k..] && items[..k][1..] == items[1..][..k - 1];
      AnyHardenedFirst(items[..k]);
    }
  }

  /** There must be one more item than are to be skipped. */
  lemma {:induction false} TooFewItems(s: string, i: nat, items: seq<Child>, k: nat, mark: char, upper: bool,
        rest: string)
    requires i <= |s| && 0 < |items| <= k && s[i..] == Bracketed(items, mark) + rest && IsMark(mark, upper)
    ensures SkipItems(s, i, k, upper) == None
    decreases k
  {
    BracketedNotEmpty(s, i, items, mark, rest);
    if |items| == 1 {
      LastItem(s, i, items, mark, upper, rest);
    } else {
      FirstItem(s, i, items, mark, upper, rest);
      TooFewItems(s, EndedItem(s, i, upper).value.i, items[1..], k - 1, mark, upper, rest);
    }
  }

  lemma {:induction false} SkipRestStep(s: string, i: nat, upper: bool, x: Skipped, r: Skipped)
    requires i < |s| && s[i] == ';' && Item(s, i + 1, upper) == Some(x) && SkipRest(s, x.i, upper) == Some(r)
    ensures SkipRest(s, i, upper) == Some(Skipped(r.i, r.count + 1, x.hardened || r.hardened))
  {
  }

  lemma Assoc(a: string, b: string, c: string, d: string)
    ensures (a + b + c) + d == a + (b + (c + d))
  {
  }

  lemma {:induction false} ItemsTextFirst(items: seq<Child>, mark: char, rest: string)
    requires items != []
    ensures ItemsText(items, mark) + rest == ";" + (ChildText(items[0], mark) + (ItemsText(items[1..], mark) + rest))
  {
    Assoc(";", ChildText(items[0], mark), ItemsText(items[1..], mark), rest);
  }

  lemma {:induction false} ItemsTextEnds(items: seq<Child>, mark: char, rest: string, upper: bool)
    ensures Ends(ItemsText(items, mark) + (">" + rest), upper)
  {
  }

  lemma {:induction false} SkipsRest(s: string, i: nat, items: seq<Child>, mark: char, upper: bool, rest: string)
    requires i <= |s| && s[i..] == ItemsText(items, mark) + (">" + rest) && IsMark(mark, upper)
    ensures var r := SkipRest(s, i, upper);
            && r.Some? && r.value.count == |items| && r.value.hardened == AnyHardened(items)
            && s[r.value.i..] == ">" + rest
    decreases |items|
  {
    if items == [] {
      assert s[i..] == ">" + rest;
      Suffix(s, i, ">", rest);
    } else {
      var c, t := ChildText(items[0], mark), ItemsText(items[1..], mark) + (">" + rest);
      ItemsTextFirst(items, mark, ">" + rest);
      Suffix(s, i, ";", c + t);
      ItemsTextEnds(items[1..], mark, rest, upper);
      ItemAt(s, i + 1, items[0], mark, upper, t);
      Suffix(s, i + 1, c, t);
      var x := Item(s, i + 1, upper).value;
      SkipsRest(s, x.i, items[1..], mark, upper, rest);
      SkipRestStep(s, i, upper, x, SkipRest(s, x.i, upper).value);
      AnyHardenedFirst(items);
    }
  }

  // ----- elements

  /** What a slash may follow. */
  predicate EndChar(c: char, upper: bool) {
    IsDigit(c) || IsMark(c, upper) || c == '*' || c == '>'
  }

  /** An element's end: what precedes is fit for a slash, and a mark there has been recorded. */
  predicate AtEnd(s: string, o: Options, q: Parser) {
    && 0 < q.i <= |s| && EndChar(s[q.i - 1], o.upper)
    && (IsMark(s[q.i - 1], o.upper) ==> q.features.isHardened)
  }

  /** The parser has read the element `e`, and `rest` is left. */
  predicate Read(s: string, o: Options, p: Parser, e: Element, q: Option<Parser>, rest: string)
    requires e.Choice? ==> o.multiIndex < |e.items|
  {
    && q.Some? && AtEnd(s, o, q.value) && s[q.value.i..] == rest
    && q.value.path == p.path + [ElementMeaning(e, o)]
    && q.value.features == AddFeatures(p.features, e, |p.path|)
    && q.value.wildcardOk == (p.wildcardOk && !e.Any?) && q.value.multiOk == (p.multiOk && !e.Choice?)
  }

  /** The end of the text or of an element. */
  predicate Ended(rest: string) {
    rest == "" || rest[0] == '/'
  }

  /** The last character of what was read. */
  lemma LastOf(s: string, i: nat, t: string, rest: string)
    requires i <= |s| && t != "" && s[i..] == t + rest
    ensures 0 < i + |t| <= |s| && s[i + |t| - 1] == t[|t| - 1]
  {
    Suffix(s, i, t, rest);
    assert s[i..i + |t|][|t| - 1] == s[i + |t| - 1];
  }

  lemma ReadNumber(s: string, o: Options, p: Parser, n: Child, i: nat, q: Option<Parser>, rest: string)
    requires 0 < i <= |s| && s[i..] == rest && (if n.hardened then IsMark(s[i - 1], o.upper) else IsDigit(s[i - 1]))
    requires q == Some(p.(i := i, path := p.path + [ChildMeaning(n)],
                          features := p.features.(isHardened := p.features.isHardened || n.hardened)))
    ensures Read(s, o, p, Fixed(n), q, rest)
  {
  }

  lemma {:induction false} ChildEnds(s: string, i: nat, n: Child, mark: char, upper: bool, rest: string)
    requires i <= |s| && s[i..] == ChildText(n, mark) + rest && IsMark(mark, upper)
    ensures var j := i + |ChildText(n, mark)|;
            && i < j <= |s| && s[j..] == rest && IsDigit(s[i])
            && if n.hardened then IsMark(s[j - 1], upper) else IsDigit(s[j - 1])
  {
    var t := ChildText(n, mark);
    assert t[0] == Decimal(n.value)[0];
    Suffix(s, i, t, rest);
    LastOf(s, i, t, rest);
  }

  lemma {:induction false} ReadsNumber(s: string, o: Options, p: Parser, n: Child, mark: char, rest: string)
    requires p.i <= |s| && s[p.i..] == ChildText(n, mark) + rest && Ended(rest)
    requires IsMark(mark, o.upper) && GoodChild(n)
    ensures p.i < |s| && IsDigit(s[p.i]) && Read(s, o, p, Fixed(n), Number(s, o, p), rest)
  {
    ChildEnds(s, p.i, n, mark, o.upper, rest);
    ChildAt(s, p.i, n, mark, o.upper, rest);
    ReadNumber(s, o, p, n, p.i + |ChildText(n, mark)|, Number(s, o, p), rest);
  }

  lemma ReadWildcard(s: string, o: Options, p: Parser, hardened: bool, i: nat, q: Option<Parser>, rest: string)
    requires 0 < i <= |s| && s[i..] == rest && p.wildcardOk
    requires if hardened then IsMark(s[i - 1], o.upper) else s[i - 1] == '*'
    requires q == Some(p.(i := i, path := p.path + [o.childNum + Hardening(hardened)], wildcardOk := false,
                          features := p.features.(isHardened := p.features.isHardened || hardened, isWildcard := true,
                                                  wildcardPos := |p.path|)))
    ensures Read(s, o, p, Any(hardened), q, rest)
  {
  }

  lemma WildcardEnds(s: string, i: nat, hardened: bool, mark: char, upper: bool, rest: string)
    requires i <= |s| && s[i..] == "*" + MarkText(hardened, mark) + rest && IsMark(mark, upper)
    ensures var j := i + 1 + |MarkText(hardened, mark)|;
            && j <= |s| && s[j..] == rest && s[i] == '*' && s[i + 1..] == MarkText(hardened, mark) + rest
            && if hardened then IsMark(s[j - 1], upper) else s[j - 1] == '*'
  {
    var m := MarkText(hardened, mark);
    assert s[i..] == "*" + (m + rest);
    Suffix(s, i, "*", m + rest);
    Suffix(s, i + 1, m, rest);
  }

  lemma ReadsWildcard(s: string, o: Options, p: Parser, hardened: bool, mark: char, rest: string)
    requires p.i <= |s| && s[p.i..] == "*" + MarkText(hardened, mark) + rest && Ended(rest)
    requires IsMark(mark, o.upper) && p.wildcardOk && (p.i > 0 ==> s[p.i - 1] == '/')
    ensures p.i < |s| && s[p.i] == '*' && Read(s, o, p, Any(hardened), Wildcard(s, o, p), rest)
  {
    WildcardEnds(s, p.i, hardened, mark, o.upper, rest);
    MarkIsAt(s, p.i + 1, hardened, mark, o.upper, rest);
    Suffix(s, p.i + 1, MarkText(hardened, mark), rest);
    ReadWildcard(s, o, p, hardened, p.i + 1 + |MarkText(hardened, mark)|, Wildcard(s, o, p), rest);
  }

  /** The parser after a multi-path of `count` items that ends at `i`. */
  function AfterChoice(p: Parser, i: nat, n: Child, count: nat, hardened: bool): Parser {
    Parser(i, p.path + [ChildMeaning(n)],
           p.features.(isHardened := p.features.isHardened || hardened, isMulti := true, multiCount := count),
           p.wildcardOk, false)
  }

  lemma {:induction false} ChosenIs(s: string, o: Options, p: Parser, skipped: Skipped, n: Child, j: nat, r: Skipped,
        count: nat)
    requires p.i < skipped.i <= j <= |s| && n.value < HARDENED
    requires DigitsEnd(s, skipped.i) == j && NumberValue(s[skipped.i..j]) == n.value
    requires MarkAt(s, j, o.upper) == n.hardened
    requires SkipRest(s, AfterMark(s, j, o.upper), o.upper) == Some(r) && r.i < |s|
    requires 2 <= count < 255 && count == skipped.count + 1 + r.count
    ensures Chosen(s, o, p, skipped) ==
            Some(AfterChoice(p, r.i + 1, n, count, skipped.hardened || n.hardened || r.hardened))
  {
  }

  lemma {:induction false} BracketedRest(items: seq<Child>, mark: char, rest: string)
    requires items != []
    ensures Bracketed(items, mark) + rest == ChildText(items[0], mark) + (ItemsText(items[1..], mark) + (">" + rest))
  {
    Assoc(ChildText(items[0], mark), ItemsText(items[1..], mark), ">", rest);
  }

  /** The number and mark of the chosen item, and what follows it. */
  lemma {:induction false} ChosenParts(s: string, i: nat, items: seq<Child>, mark: char, upper: bool, rest: string)
    requires i <= |s| && items != [] && s[i..] == Bracketed(items, mark) + rest && IsMark(mark, upper)
    ensures var j, n := DigitsEnd(s, i), items[0];
            && NumberValue(s[i..j]) == n.value && MarkAt(s, j, upper) == n.hardened
            && var r := SkipRest(s, AfterMark(s, j, upper), upper);
               r.Some? && r.value.count == |items| - 1 && r.value.hardened == AnyHardened(items[1..])
               && s[r.value.i..] == ">" + rest
  {
    var n, t := items[0], ItemsText(items[1..], mark) + (">" + rest);
    BracketedRest(items, mark, rest);
    assert Ends(t, upper) by {
      ItemsTextEnds(items[1..], mark, rest, upper);
    }
    ChildAt(s, i, n, mark, upper, t);
    var k := AfterMark(s, DigitsEnd(s, i), upper);
    assert s[k..] == t by {
      Suffix(s, i, ChildText(n, mark), t);
    }
    SkipsRest(s, k, items[1..], mark, upper, rest);
  }

  lemma {:induction false} ChosenResult(s: string, o: Options, p: Parser, skipped: Skipped, items: seq<Child>,
        k: nat, mark: char, rest: string)
    returns (r: Skipped)
    requires p.i < skipped.i <= |s| && k < |items| && s[skipped.i..] == Bracketed(items[k..], mark) + rest
    requires skipped.count == k && IsMark(mark, o.upper) && GoodElement(Choice(items))
    ensures r.i < |s| && s[r.i] == '>' && s[r.i + 1..] == rest && r.hardened == AnyHardened(items[k + 1..])
    ensures Chosen(s, o, p, skipped) ==
            Some(AfterChoice(p, r.i + 1, items[k], |items|, skipped.hardened || items[k].hardened || r.hardened))
  {
    assert items[k..][0] == items[k] && items[k..][1..] == items[k + 1..];
    ChosenParts(s, skipped.i, items[k..], mark, o.upper, rest);
    var j := DigitsEnd(s, skipped.i);
    r := SkipRest(s, AfterMark(s, j, o.upper), o.upper).value;
    Suffix(s, r.i, ">", rest);
    ChosenIs(s, o, p, skipped, items[k], j, r, |items|);
  }

  lemma ReadChoice(s: string, o: Options, p: Parser, items: seq<Child>, i: nat, q: Option<Parser>, rest: string)
    requires 0 < i <= |s| && s[i - 1] == '>' && s[i..] == rest && o.multiIndex < |items| && p.multiOk
    requires q == Some(AfterChoice(p, i, items[o.multiIndex], |items|, AnyHardened(items)))
    ensures Read(s, o, p, Choice(items), q, rest)
  {
  }

  /** The three parts of the items together show whether any is hardened. */
  lemma HardenedParts(items: seq<Child>, k: nat)
    requires k < |items|
    ensures AnyHardened(items) == (AnyHardened(items[..k]) || items[k].hardened || AnyHardened(items[k + 1..]))
  {
    if AnyHardened(items[..k]) {
      var j :| 0 <= j < k && items[..k][j].hardened;
      assert items[j].hardened;
    }
    if AnyHardened(items[k + 1..]) {
      var j :| 0 <= j < |items[k + 1..]| && items[k + 1..][j].hardened;
      assert items[k + 1 + j].hardened;
    }
    if AnyHardened(items) {
      var j :| 0 <= j < |items| && items[j].hardened;
      if j < k {
        assert items[..k][j].hardened;
      } else if j > k {
        assert items[k + 1..][j - k - 1].hardened;
      }
    }
  }

  /** The chosen item, when those before it have been skipped. */
  lemma {:induction false} ReadsChosen(s: string, o: Options, p: Parser, skipped: Skipped, items: seq<Child>,
        mark: char, rest: string)
    requires p.i < skipped.i <= |s| && o.multiIndex < |items| && p.multiOk
    requires s[skipped.i..] == Bracketed(items[o.multiIndex..], mark) + rest
    requires skipped.count == o.multiIndex && skipped.hardened == AnyHardened(items[..o.multiIndex])
    requires IsMark(mark, o.upper) && GoodElement(Choice(items))
    ensures Read(s, o, p, Choice(items), Chosen(s, o, p, skipped), rest)
  {
    var r := ChosenResult(s, o, p, skipped, items, o.multiIndex, mark, rest);
    HardenedParts(items, o.multiIndex);
    ReadChoice(s, o, p, items, r.i + 1, Chosen(s, o, p, skipped), rest);
  }

  lemma {:induction false} FirstDigit(items: seq<Child>, mark: char)
    requires items != []
    ensures IsDigit(Bracketed(items, mark)[0])
  {
    assert Bracketed(items, mark)[0] == Decimal(items[0].value)[0];
  }

  /** A multi-path yields the item asked for, or fails if there is none. */
  lemma {:induction false} ReadsMulti(s: string, o: Options, p: Parser, items: seq<Child>, mark: char, rest: string)
    requires p.i <= |s| && p.multiOk && IsMark(mark, o.upper) && GoodElement(Choice(items))
    requires s[p.i..] == "<" + (Bracketed(items, mark) + rest)
    ensures p.i < |s| && s[p.i] == '<'
    ensures if o.multiIndex < |items| then Read(s, o, p, Choice(items), Multi(s, o, p), rest)
            else Multi(s, o, p) == None
  {
    var t := Bracketed(items, mark) + rest;
    Suffix(s, p.i, "<", t);
    Suffix(s, p.i + 1, Bracketed(items, mark), rest);
    FirstDigit(items, mark);
    if o.multiIndex < |items| {
      SkipsItems(s, p.i + 1, items, o.multiIndex, mark, o.upper, rest);
      ReadsChosen(s, o, p, SkipItems(s, p.i + 1, o.multiIndex, o.upper).value, items, mark, rest);
    } else {
      TooFewItems(s, p.i + 1, items, o.multiIndex, mark, o.upper, rest);
    }
  }

  lemma StepCases(s: string, o: Options, p: Parser)
    requires p.i < |s|
    ensures IsDigit(s[p.i]) ==> Step(s, o, p) == Number(s, o, p)
    ensures s[p.i] == '*' ==> Step(s, o, p) == Wildcard(s, o, p)
    ensures s[p.i] == '<' && p.multiOk ==> Step(s, o, p) == Multi(s, o, p)
  {
  }

  /** Whether the iteration fails, or what it reads. */
  predicate Outcome(s: string, o: Options, p: Parser, e: Element, q: Option<Parser>, rest: string) {
    if e.Choice? && o.multiIndex >= |e.items| then q == None else Read(s, o, p, e, q, rest)
  }

  lemma {:induction false} ReadsFixed(s: string, o: Options, p: Parser, n: Child, mark: char, rest: string)
    requires p.i <= |s| && s[p.i..] == ElementText(Fixed(n), mark) + rest && Ended(rest)
    requires IsMark(mark, o.upper) && GoodElement(Fixed(n))
    ensures p.i < |s| && s[p.i] != '/' && Outcome(s, o, p, Fixed(n), Step(s, o, p), rest)
  {
    ReadsNumber(s, o, p, n, mark, rest);
    StepCases(s, o, p);
  }

  lemma {:induction false} ReadsAny(s: string, o: Options, p: Parser, hardened: bool, mark: char, rest: string)
    requires p.i <= |s| && s[p.i..] == ElementText(Any(hardened), mark) + rest && Ended(rest)
    requires IsMark(mark, o.upper) && p.wildcardOk && (p.i > 0 ==> s[p.i - 1] == '/')
    ensures p.i < |s| && s[p.i] != '/' && Outcome(s, o, p, Any(hardened), Step(s, o, p), rest)
  {
    ReadsWildcard(s, o, p, hardened, mark, rest);
    StepCases(s, o, p);
  }

  lemma {:induction false} ChoiceText(items: seq<Child>, mark: char, rest: string)
    requires items != []
    ensures ElementText(Choice(items), mark) + rest == "<" + (Bracketed(items, mark) + rest)
  {
    var c, t := ChildText(items[0], mark), ItemsText(items[1..], mark);
    assert ("<" + c + t + ">") + rest == "<" + ((c + t + ">") + rest);
  }

  lemma {:induction false} ReadsChoice(s: string, o: Options, p: Parser, items: seq<Child>, mark: char, rest: string)
    requires p.i <= |s| && s[p.i..] == ElementText(Choice(items), mark) + rest
    requires IsMark(mark, o.upper) && GoodElement(Choice(items)) && p.multiOk
    ensures p.i < |s| && s[p.i] != '/' && Outcome(s, o, p, Choice(items), Step(s, o, p), rest)
  {
    ChoiceText(items, mark, rest);
    ReadsMulti(s, o, p, items, mark, rest);
    StepCases(s, o, p);
  }

  /** Whatever the element, one iteration of the main loop reads it. */
  lemma {:induction false} ReadsElement(s: string, o: Options, p: Parser, e: Element, mark: char, rest: string)
    requires p.i <= |s| && s[p.i..] == ElementText(e, mark) + rest && Ended(rest)
    requires IsMark(mark, o.upper) && GoodElement(e) && (p.i > 0 ==> s[p.i - 1] == '/')
    requires (e.Any? ==> p.wildcardOk) && (e.Choice? ==> p.multiOk)
    ensures p.i < |s| && s[p.i] != '/' && Outcome(s, o, p, e, Step(s, o, p), rest)
  {
    match e
    case Fixed(n) => ReadsFixed(s, o, p, n, mark, rest);
    case Any(hardened) => ReadsAny(s, o, p, hardened, mark, rest);
    case Choice(items) => ReadsChoice(s, o, p, items, mark, rest);
  }

  lemma {:induction false} ElementTextStarts(e: Element, mark: char)
    requires GoodElement(e)
    ensures ElementText(e, mark) != "" && ElementText(e, mark)[0] != '/'
  {
    match e
    case Fixed(n) => assert ElementText(e, mark)[0] == Decimal(n.value)[0];
    case Any(_) =>
    case Choice(items) =>
  }

  /** A slash between elements is stepped over. */
  lemma {:induction false} ReadsSlash(s: string, o: Options, p: Parser, t: string)
    requires AtEnd(s, o, p) && s[p.i..] == "/" + t && t != "" && t[0] != '/'
    ensures p.i < |s| && Step(s, o, p) == Some(p.(i := p.i + 1)) && s[p.i + 1..] == t && s[p.i] == '/'
  {
    Suffix(s, p.i, "/", t);
    Suffix(s, p.i + 1, t, "");
  }

  // ----- paths

  /** The wildcards and multi-paths still to come are allowed. */
  predicate Allows(p: Parser, es: seq<Element>) {
    && AtMostOne(es)
    && (p.wildcardOk || forall k :: 0 <= k < |es| ==> !es[k].Any?)
    && (p.multiOk || forall k :: 0 <= k < |es| ==> !es[k].Choice?)
  }

  lemma AllowsRest(p: Parser, es: seq<Element>, q: Parser)
    requires es != [] && Allows(p, es)
    requires q.wildcardOk == (p.wildcardOk && !es[0].Any?) && q.multiOk == (p.multiOk && !es[0].Choice?)
    ensures (es[0].Any? ==> p.wildcardOk) && (es[0].Choice? ==> p.multiOk) && Allows(q, es[1..])
  {
    assert forall k :: 0 <= k < |es[1..]| ==> es[1..][k] == es[k + 1];
  }

  lemma HasItemRest(es: seq<Element>, o: Options)
    requires es != []
    ensures HasItem(es, o) <==> (es[0].Choice? ==> o.multiIndex < |es[0].items|) && HasItem(es[1..], o)
    ensures HasItem(es, o) ==> Meaning(es, o) == [ElementMeaning(es[0], o)] + Meaning(es[1..], o)
  {
    if HasItem(es[1..], o) {
      assert forall k :: 1 <= k < |es| ==> es[k] == es[1..][k - 1];
    }
  }

  predicate AllGood(es: seq<Element>) {
    forall k :: 0 <= k < |es| ==> GoodElement(es[k])
  }

  /** The whole of the parse: all the elements read, or a multi-path without the item. */
  predicate ReadAll(o: Options, p: Parser, es: seq<Element>, q: Option<Parser>) {
    if HasItem(es, o) then
      q.Some? && q.value.path == p.path + Meaning(es, o) && q.value.features == AddAll(p.features, es, |p.path|)
    else q == None
  }

  lemma {:induction false} ElementsTextFirst(es: seq<Element>, mark: char)
    requires es != []
    ensures ElementsText(es, mark) == "/" + (ElementText(es[0], mark) + ElementsText(es[1..], mark))
  {
    Assoc("/", ElementText(es[0], mark), "", ElementsText(es[1..], mark));
  }

  lemma RunsNothing(s: string, o: Options, p: Parser)
    requires p.i <= |s| && s[p.i..] == ""
    ensures ReadAll(o, p, [], Run(s, o, p))
  {
    assert p.i == |s|;
    assert p.path + Meaning([], o) == p.path;
  }

  lemma ReadAllFirst(s: string, o: Options, p: Parser, es: seq<Element>, q: Parser, r: Option<Parser>, rest: string)
    requires es != [] && (es[0].Choice? ==> o.multiIndex < |es[0].items|)
    requires Read(s, o, p, es[0], Some(q), rest) && ReadAll(o, q, es[1..], r)
    ensures ReadAll(o, p, es, r)
  {
    HasItemRest(es, o);
    if HasItem(es, o) {
      assert p.path + Meaning(es, o) == q.path + Meaning(es[1..], o);
    }
  }

  /** The same from the start of an element. */
  lemma {:induction false} RunsFromElement(s: string, o: Options, p: Parser, es: seq<Element>, mark: char)
    requires es != [] && p.i <= |s| && s[p.i..] == ElementText(es[0], mark) + ElementsText(es[1..], mark)
    requires p.i > 0 ==> s[p.i - 1] == '/'
    requires IsMark(mark, o.upper) && AllGood(es) && Allows(p, es)
    ensures ReadAll(o, p, es, Run(s, o, p))
    decreases |es|, 0
  {
    var rest := ElementsText(es[1..], mark);
    AllowsRest(p, es, p.(wildcardOk := p.wildcardOk && !es[0].Any?, multiOk := p.multiOk && !es[0].Choice?));
    ReadsElement(s, o, p, es[0], mark, rest);
    if es[0].Choice? && o.multiIndex >= |es[0].items| {
      HasItemRest(es, o);
    } else {
      var q := Step(s, o, p).value;
      AllowsRest(p, es, q);
      RunsElements(s, o, q, es[1..], mark);
      ReadAllFirst(s, o, p, es, q, Run(s, o, q), rest);
    }
  }

  /** The elements after the first, each with its slash. */
  lemma {:induction false} RunsElements(s: string, o: Options, p: Parser, es: seq<Element>, mark: char)
    requires AtEnd(s, o, p) && s[p.i..] == ElementsText(es, mark)
    requires IsMark(mark, o.upper) && AllGood(es) && Allows(p, es)
    ensures ReadAll(o, p, es, Run(s, o, p))
    decreases |es|, 1
  {
    if es == [] {
      RunsNothing(s, o, p);
    } else {
      var rest := ElementsText(es[1..], mark);
      ElementTextStarts(es[0], mark);
      ElementsTextFirst(es, mark);
      ReadsSlash(s, o, p, ElementText(es[0], mark) + rest);
      RunsFromElement(s, o, p.(i := p.i + 1), es, mark);
    }
  }
}
