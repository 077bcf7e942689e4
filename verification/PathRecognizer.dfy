/** The path parser accepts the sentences of the grammar, reads them as they mean, and accepts
    nothing else. */
module PathRecognizer {
  import opened Common
  import opened PathSyntax
  import opened PathGrammar
  import opened PathLaws
  import PathMulti
  import PathText

  // ----- numbers, marks and entries

  lemma Tenfold(a: nat, p: nat, q: nat, x: nat, c: nat)
    requires q == 10 * p
    ensures a * q + (10 * x + c) == 10 * (a * p + x) + c
  {
    assert a * (10 * p) == 10 * (a * p);
  }

  lemma {:induction false} DecimalLast(t: string, c: char)
    ensures Decimal(t + [c]) == 10 * Decimal(t) + Worth(c)
  {
    var s := t + [c];
    if t == "" {
      assert Decimal(s) == Worth(c) * Pow(10, 0) + Decimal(s[1..]);
    } else {
      assert s[1..] == t[1..] + [c] && s[0] == t[0];
      DecimalLast(t[1..], c);
      Tenfold(Worth(t[0]), Pow(10, |t| - 1), Pow(10, |t|), Decimal(t[1..]), Worth(c));
    }
  }

  /** The running sum of the digits is the number they write. */
  lemma {:induction false} NumberIsDecimal(d: string)
    requires AllDigits(d)
    ensures NumberValue(d) == Decimal(d)
  {
    if d != "" {
      var t := d[..|d| - 1];
      assert d == t + [d[|d| - 1]];
      NumberIsDecimal(t);
      DecimalLast(t, d[|d| - 1]);
    }
  }

  lemma MarkAtEnd(s: string, i: nat, mark: string, upper: bool, rest: string)
    requires i <= |s| && s[i..] == mark + rest && Mark(mark, upper) && (mark == "" ==> Ends(rest, upper))
    ensures MarkAt(s, i, upper) == (mark != "") && s[AfterMark(s, i, upper)..] == rest
  {
    Suffix(s, i, mark, rest);
  }

  lemma {:induction false} ReadsDigits(s: string, i: nat, d: string, mark: string, upper: bool, rest: string)
    requires i <= |s| && s[i..] == d + (mark + rest) && Digits(d)
    requires Mark(mark, upper) && (mark == "" ==> Ends(rest, upper))
    ensures var j := DigitsEnd(s, i); j == i + |d| && NumberValue(s[i..j]) == Decimal(d) && s[j..] == mark + rest
  {
    DigitsAt(s, i, d, mark + rest);
    NumberIsDecimal(d);
    Suffix(s, i, d, mark + rest);
  }

  /** An entry is read to its end. */
  lemma {:induction false} ReadsEntry(s: string, i: nat, e: Entry, upper: bool, rest: string)
    requires i <= |s| && s[i..] == EntryText(e) + rest
    requires Digits(e.digits) && Mark(e.mark, upper) && (e.mark == "" ==> Ends(rest, upper))
    ensures var j := DigitsEnd(s, i);
            && j == i + |e.digits| && NumberValue(s[i..j]) == Decimal(e.digits)
            && MarkAt(s, j, upper) == (e.mark != "") && s[AfterMark(s, j, upper)..] == rest
  {
    var d, m := e.digits, e.mark;
    assert (d + m) + rest == d + (m + rest);
    ReadsDigits(s, i, d, m, upper, rest);
    MarkAtEnd(s, DigitsEnd(s, i), m, upper, rest);
  }

  /** The entry that starts at `i`, up to `k`. */
  lemma {:induction false} EntryOf(s: string, i: nat, upper: bool, k: nat) returns (e: Entry)
    requires i <= |s| && k == AfterMark(s, DigitsEnd(s, i), upper)
    ensures i <= k <= |s| && s[i..] == EntryText(e) + s[k..]
    ensures Digits(e.digits) && Mark(e.mark, upper) && (e.mark == "" ==> Ends(s[k..], upper))
    ensures NumberValue(s[i..DigitsEnd(s, i)]) == Decimal(e.digits)
    ensures e.digits == "" <==> !(i < |s| && IsDigit(s[i]))
  {
    var j := DigitsEnd(s, i);
    e := Entry(s[i..j], s[j..k]);
    NumberIsDecimal(s[i..j]);
    assert s[i..] == s[i..j] + s[j..k] + s[k..];
    assert MarkAt(s, j, upper) ==> s[j..k] == [s[j]];
  }

  // ----- the items of a multi-path

  lemma {:induction false} ItemIs(s: string, i: nat, e: Entry, upper: bool, rest: string)
    requires i <= |s| && s[i..] == EntryText(e) + rest && GoodEntry(e, upper) && (e.mark == "" ==> Ends(rest, upper))
    ensures i < |s| && IsDigit(s[i])
    ensures var x := Item(s, i, upper); x.Some? && x.value.hardened == (e.mark != "") && s[x.value.i..] == rest
  {
    ReadsEntry(s, i, e, upper, rest);
    assert s[i] == s[i..][0] == e.digits[0];
  }

  lemma {:induction false} EndedIs(s: string, i: nat, e: Entry, upper: bool, rest: string)
    requires i <= |s| && s[i..] == EntryText(e) + (";" + rest) && GoodEntry(e, upper)
    ensures i < |s|
    ensures var x := EndedItem(s, i, upper); x.Some? && x.value.hardened == (e.mark != "") && s[x.value.i..] == rest
  {
    ItemIs(s, i, e, upper, ";" + rest);
    Suffix(s, Item(s, i, upper).value.i, ";", rest);
  }

  lemma {:induction false} CharThen(s: string, i: nat, c: char)
    requires i < |s| && s[i] == c
    ensures s[i..] == [c] + s[i + 1..]
  {
  }

  lemma Regroup(a: string, b: string, c: string, d: string)
    ensures (a + (b + c)) + d == a + (b + (c + d))
  {
  }

  lemma {:induction false} BeforeFirst(es: seq<Entry>, rest: string)
    requires es != []
    ensures BeforeText(es) + rest == EntryText(es[0]) + (";" + (BeforeText(es[1..]) + rest))
  {
    Regroup(EntryText(es[0]), ";", BeforeText(es[1..]), rest);
  }

  /** `n` items are skipped, up to `k`. */
  predicate Skips(s: string, i: nat, n: nat, upper: bool, k: nat)
    requires i <= |s|
  {
    var r := SkipItems(s, i, n, upper);
    r.Some? && r.value.count == n && r.value.i == k
  }

  lemma {:induction false} SkipItemsNone(s: string, i: nat, upper: bool)
    requires i <= |s|
    ensures SkipItems(s, i, 0, upper) == Some(Skipped(i, 0, false))
  {
  }

  /** The items before the chosen one are skipped. */
  lemma {:induction false} SkipsBefore(s: string, i: nat, es: seq<Entry>, upper: bool, rest: string)
    requires i <= |s| && s[i..] == BeforeText(es) + rest && AllBefore(es, upper)
    ensures var r := SkipItems(s, i, |es|, upper);
            r.Some? && r.value.count == |es| && r.value.hardened == AnyBefore(es) && s[r.value.i..] == rest
    decreases |es|
  {
    if es == [] {
      assert s[i..] == rest;
      SkipItemsNone(s, i, upper);
    } else {
      var t := BeforeText(es[1..]);
      BeforeFirst(es, rest);
      EndedIs(s, i, es[0], upper, t + rest);
      var x := EndedItem(s, i, upper).value;
      SkipsBefore(s, x.i, es[1..], upper, rest);
      SkipItemsStep(s, i, |es|, upper, x, SkipItems(s, x.i, |es| - 1, upper).value);
    }
  }

  lemma {:induction false} EndedOf(s: string, i: nat, upper: bool, k: nat) returns (e: Entry)
    requires i <= |s| && EndedItem(s, i, upper).Some? && EndedItem(s, i, upper).value.i == k
    ensures k <= |s| && GoodEntry(e, upper) && s[i..] == EntryText(e) + (";" + s[k..])
  {
    e := EntryOf(s, i, upper, k - 1);
    CharThen(s, k - 1, ';');
  }

  lemma {:induction false} SkipItemsBack(s: string, i: nat, n: nat, upper: bool, k: nat)
    requires i <= |s| && n > 0 && Skips(s, i, n, upper, k)
    ensures EndedItem(s, i, upper).Some? && Skips(s, EndedItem(s, i, upper).value.i, n - 1, upper, k)
  {
  }

  lemma {:induction false} BeforeCons(e: Entry, es: seq<Entry>, upper: bool, text: string, mid: string, rest: string)
    requires text == EntryText(e) + (";" + mid) && mid == BeforeText(es) + rest
    requires GoodEntry(e, upper) && AllBefore(es, upper)
    ensures text == BeforeText([e] + es) + rest && AllBefore([e] + es, upper)
  {
    assert ([e] + es)[1..] == es;
    BeforeFirst([e] + es, rest);
  }

  /** What is skipped as items ended by semicolons is a list of entries. */
  lemma {:induction false} BeforeOf(s: string, i: nat, n: nat, upper: bool, k: nat) returns (es: seq<Entry>)
    requires i <= |s| && Skips(s, i, n, upper, k)
    ensures k <= |s| && |es| == n && AllBefore(es, upper) && s[i..] == BeforeText(es) + s[k..]
    decreases n
  {
    if n == 0 {
      SkipItemsNone(s, i, upper);
      es := [];
    } else {
      SkipItemsBack(s, i, n, upper, k);
      var j := EndedItem(s, i, upper).value.i;
      var e := EndedOf(s, i, upper, j);
      var t := BeforeOf(s, j, n - 1, upper, k);
      BeforeCons(e, t, upper, s[i..], s[j..], s[k..]);
      es := [e] + t;
    }
  }

  /** Nothing that can follow an entry without a mark continues it. */
  lemma {:induction false} AfterEnds(mark: string, ls: seq<Later>, upper: bool, rest: string)
    requires GoodAfter(mark, ls, upper) && mark == ""
    ensures Ends(AfterText(ls) + (">" + rest), upper)
  {
  }

  lemma {:induction false} RestStep(s: string, i: nat, b: bool, upper: bool, x: Skipped, r: Skipped)
    requires i < |s| && (b <==> s[i] == ';') && s[i] != '>'
    requires Item(s, if b then i + 1 else i, upper) == Some(x) && SkipRest(s, x.i, upper) == Some(r)
    ensures SkipRest(s, i, upper) == Some(Skipped(r.i, r.count + (if b then 1 else 0), x.hardened || r.hardened))
  {
  }

  lemma {:induction false} LaterStarts(s: string, i: nat, l: Later, upper: bool, rest: string)
    requires i <= |s| && s[i..] == SemicolonText(l.semicolon) + (EntryText(l.entry) + rest)
    requires GoodEntry(l.entry, upper) && (l.entry.mark == "" ==> Ends(rest, upper))
    ensures i < |s| && (l.semicolon <==> s[i] == ';') && s[i] != '>'
    ensures var x := Item(s, if l.semicolon then i + 1 else i, upper);
            x.Some? && x.value.hardened == (l.entry.mark != "") && s[x.value.i..] == rest
  {
    Suffix(s, i, SemicolonText(l.semicolon), EntryText(l.entry) + rest);
    ItemIs(s, if l.semicolon then i + 1 else i, l.entry, upper, rest);
  }

  lemma {:induction false} AfterFirst(ls: seq<Later>, rest: string)
    requires ls != []
    ensures AfterText(ls) + rest ==
            SemicolonText(ls[0].semicolon) + (EntryText(ls[0].entry) + (AfterText(ls[1..]) + rest))
  {
    Regroup(SemicolonText(ls[0].semicolon), EntryText(ls[0].entry), AfterText(ls[1..]), rest);
  }

  lemma {:induction false} SkipRestNone(s: string, i: nat, upper: bool)
    requires i < |s| && s[i] == '>'
    ensures SkipRest(s, i, upper) == Some(Skipped(i, 0, false))
  {
  }

  /** So are the items after it. */
  lemma {:induction false} SkipsAfter(s: string, i: nat, mark: string, ls: seq<Later>, upper: bool, rest: string)
    requires i <= |s| && s[i..] == AfterText(ls) + (">" + rest) && GoodAfter(mark, ls, upper)
    ensures var r := SkipRest(s, i, upper);
            && r.Some? && r.value.count == Semicolons(ls) && r.value.hardened == AnyAfter(ls)
            && s[r.value.i..] == ">" + rest
    decreases |ls|
  {
    if ls == [] {
      assert s[i..] == ">" + rest;
      Suffix(s, i, ">", rest);
      SkipRestNone(s, i, upper);
    } else {
      var l, t := ls[0], AfterText(ls[1..]) + (">" + rest);
      AfterFirst(ls, ">" + rest);
      if l.entry.mark == "" {
        AfterEnds("", ls[1..], upper, rest);
      }
      LaterStarts(s, i, l, upper, t);
      var x := Item(s, if l.semicolon then i + 1 else i, upper).value;
      SkipsAfter(s, x.i, l.entry.mark, ls[1..], upper, rest);
      RestStep(s, i, l.semicolon, upper, x, SkipRest(s, x.i, upper).value);
    }
  }

  /** The rest of the items is skipped, up to `k`, after `n` semicolons. */
  predicate Rests(s: string, i: nat, upper: bool, k: nat, n: int)
    requires i <= |s|
  {
    var r := SkipRest(s, i, upper);
    r.Some? && r.value.i == k && r.value.count == n
  }

  lemma {:induction false} RestsNone(s: string, i: nat, upper: bool, k: nat, n: int)
    requires i < |s| && s[i] == '>' && Rests(s, i, upper, k, n)
    ensures i == k && n == 0
  {
  }

  lemma {:induction false} RestsBack(s: string, i: nat, upper: bool, k: nat, n: int)
    requires i <= |s| && Rests(s, i, upper, k, n) && k < |s| && (i < |s| ==> s[i] != '>')
    ensures i < |s|
    ensures var x := Item(s, if s[i] == ';' then i + 1 else i, upper);
            && x.Some? && i < x.value.i <= |s|
            && Rests(s, x.value.i, upper, k, if s[i] == ';' then n - 1 else n)
  {
  }

  lemma {:induction false} ItemOf(s: string, i: nat, upper: bool, k: nat) returns (e: Entry)
    requires i <= |s| && Item(s, i, upper).Some? && Item(s, i, upper).value.i == k
    ensures k <= |s| && GoodEntry(e, upper) && s[i..] == EntryText(e) + s[k..] && (e.mark == "" ==> Ends(s[k..], upper))
    ensures i < |s| && IsDigit(s[i])
  {
    e := EntryOf(s, i, upper, k);
  }

  lemma {:induction false} LaterOf(s: string, i: nat, upper: bool, rest: string, l: Later)
    requires i < |s| && l.semicolon == (s[i] == ';')
    requires s[if s[i] == ';' then i + 1 else i..] == EntryText(l.entry) + rest
    ensures s[i..] == SemicolonText(l.semicolon) + (EntryText(l.entry) + rest)
  {
  }

  lemma {:induction false} GoodAfterFirst(mark: string, l: Later, t: seq<Later>, upper: bool)
    requires (mark == "" ==> l.semicolon) && GoodEntry(l.entry, upper) && GoodAfter(l.entry.mark, t, upper)
    ensures GoodAfter(mark, [l] + t, upper)
    ensures Semicolons([l] + t) == Semicolons(t) + if l.semicolon then 1 else 0
  {
    assert ([l] + t)[1..] == t;
  }

  lemma {:induction false} AfterCons(mark: string, l: Later, ls: seq<Later>, upper: bool, text: string, mid: string,
        rest: string)
    requires text == SemicolonText(l.semicolon) + (EntryText(l.entry) + mid) && mid == AfterText(ls) + rest
    requires (mark == "" ==> l.semicolon) && GoodEntry(l.entry, upper) && GoodAfter(l.entry.mark, ls, upper)
    ensures text == AfterText([l] + ls) + rest && GoodAfter(mark, [l] + ls, upper)
    ensures Semicolons([l] + ls) == Semicolons(ls) + if l.semicolon then 1 else 0
  {
    GoodAfterFirst(mark, l, ls, upper);
    assert ([l] + ls)[1..] == ls;
    AfterFirst([l] + ls, rest);
  }

  /** What is skipped up to the closing bracket is a list of entries too. */
  lemma {:induction false} AfterOf(s: string, i: nat, mark: string, upper: bool, end: nat, n: int, rest: string)
    returns (ls: seq<Later>)
    requires i <= |s| && end < |s| && Rests(s, i, upper, end, n) && (mark == "" ==> Ends(s[i..], upper))
    requires s[end..] == rest
    ensures GoodAfter(mark, ls, upper) && Semicolons(ls) == n && s[i..] == AfterText(ls) + rest
    decreases |s| - i
  {
    if i < |s| && s[i] == '>' {
      RestsNone(s, i, upper, end, n);
      ls := [];
    } else {
      RestsBack(s, i, upper, end, n);
      var j := if s[i] == ';' then i + 1 else i;
      var k := Item(s, j, upper).value.i;
      var e := ItemOf(s, j, upper, k);
      var l := Later(s[i] == ';', e);
      var t := AfterOf(s, k, l.entry.mark, upper, end, if s[i] == ';' then n - 1 else n, rest);
      LaterOf(s, i, upper, s[k..], l);
      AfterCons(mark, l, t, upper, s[i..], s[k..], rest);
      ls := [l] + t;
    }
  }

  // ----- multi-paths

  /** The features with one more part, when `k` elements came before. */
  function AddPart(f: Features, x: Part, k: nat): Features {
    Features(f.isBare, f.isHardened || IsHardened(x), f.isWildcard || x.Star?, f.isMulti || x.Choices?,
             if x.Star? then k else f.wildcardPos, if x.Choices? then Count(x) else f.multiCount)
  }

  /** The parser has read the part `x`, and `rest` is left. */
  predicate Reads(s: string, o: Options, p: Parser, x: Part, q: Option<Parser>, rest: string) {
    && q.Some? && q.value.i <= |s| && s[q.value.i..] == rest && q.value.path == p.path + Value(x, o)
    && q.value.features == AddPart(p.features, x, |p.path|)
    && q.value.wildcardOk == (p.wildcardOk && !x.Star?) && q.value.multiOk == (p.multiOk && !x.Choices?)
  }

  lemma {:induction false} ReadsChoices(s: string, o: Options, p: Parser, x: Part, i: nat, hardened: bool, rest: string)
    requires x.Choices? && p.multiOk && i <= |s| && s[i..] == rest && hardened == IsHardened(x)
    requires Digits(x.chosen.digits)
    ensures var n := PathText.Child(Decimal(x.chosen.digits), x.chosen.mark != "");
            Reads(s, o, p, x, Some(AfterChoice(p, i, n, Count(x), hardened)), rest)
  {
  }

  lemma {:induction false} SkipsToBracket(s: string, i: nat, mark: string, ls: seq<Later>, upper: bool, rest: string)
    returns (r: Skipped)
    requires i <= |s| && s[i..] == AfterText(ls) + (">" + rest) && GoodAfter(mark, ls, upper)
    ensures SkipRest(s, i, upper) == Some(r) && r.count == Semicolons(ls) && r.hardened == AnyAfter(ls)
    ensures r.i < |s| && s[r.i + 1..] == rest
  {
    SkipsAfter(s, i, mark, ls, upper, rest);
    r := SkipRest(s, i, upper).value;
    Suffix(s, r.i, ">", rest);
  }

  /** The chosen item and those after it. */
  lemma {:induction false} ChosenAndRest(s: string, i: nat, e: Entry, after: seq<Later>, upper: bool, behind: string,
        rest: string)
    returns (r: Skipped)
    requires i <= |s| && s[i..] == EntryText(e) + behind && behind == AfterText(after) + (">" + rest)
    requires Digits(e.digits) && Mark(e.mark, upper) && GoodAfter(e.mark, after, upper)
    ensures var j := DigitsEnd(s, i);
            && NumberValue(s[i..j]) == Decimal(e.digits) && MarkAt(s, j, upper) == (e.mark != "")
            && SkipRest(s, AfterMark(s, j, upper), upper) == Some(r)
    ensures r.count == Semicolons(after) && r.hardened == AnyAfter(after) && r.i < |s| && s[r.i + 1..] == rest
  {
    if e.mark == "" {
      AfterEnds("", after, upper, rest);
    }
    ReadsEntry(s, i, e, upper, behind);
    r := SkipsToBracket(s, AfterMark(s, DigitsEnd(s, i), upper), e.mark, after, upper, rest);
  }

  lemma {:induction false} ChosenIsEntry(s: string, o: Options, p: Parser, skipped: Skipped, e: Entry,
        after: seq<Later>, behind: string, rest: string, n: PathText.Child)
    returns (r: Skipped)
    requires p.i < skipped.i <= |s| && s[skipped.i..] == EntryText(e) + behind
    requires behind == AfterText(after) + (">" + rest) && n == PathText.Child(Decimal(e.digits), e.mark != "")
    requires Digits(e.digits) && Mark(e.mark, o.upper) && n.value < HARDENED
    requires GoodAfter(e.mark, after, o.upper) && 2 <= skipped.count + 1 + Semicolons(after) <= 254
    ensures r.count == Semicolons(after) && r.hardened == AnyAfter(after) && r.i < |s| && s[r.i + 1..] == rest
    ensures Chosen(s, o, p, skipped) ==
            Some(AfterChoice(p, r.i + 1, n, skipped.count + 1 + r.count, skipped.hardened || n.hardened || r.hardened))
  {
    r := ChosenAndRest(s, skipped.i, e, after, o.upper, behind, rest);
    ChosenIs(s, o, p, skipped, n, DigitsEnd(s, skipped.i), r, skipped.count + 1 + r.count);
  }

  lemma {:induction false} ReadsChosen(s: string, o: Options, p: Parser, skipped: Skipped, x: Part, rest: string)
    requires x.Choices? && GoodPart(x, o) && p.multiOk && p.i < skipped.i <= |s|
    requires skipped.count == |x.before| && skipped.hardened == AnyBefore(x.before)
    requires s[skipped.i..] == EntryText(x.chosen) + (AfterText(x.after) + (">" + rest))
    ensures Reads(s, o, p, x, Chosen(s, o, p, skipped), rest)
  {
    var n := PathText.Child(Decimal(x.chosen.digits), x.chosen.mark != "");
    var r := ChosenIsEntry(s, o, p, skipped, x.chosen, x.after, AfterText(x.after) + (">" + rest), rest, n);
    ReadsChoices(s, o, p, x, r.i + 1, IsHardened(x), rest);
  }

  lemma {:induction false} ChoicesText(x: Part, rest: string)
    requires x.Choices?
    ensures PartText(x) + rest ==
            "<" + (BeforeText(x.before) + (EntryText(x.chosen) + (AfterText(x.after) + (">" + rest))))
  {
    var a, b, c := BeforeText(x.before), EntryText(x.chosen), AfterText(x.after);
    Regroup("<", a, b + (c + ">"), rest);
    Regroup(b, c, ">", rest);
  }

  lemma {:induction false} ChoicesBegin(x: Part, o: Options, rest: string)
    requires x.Choices? && GoodPart(x, o)
    ensures IsDigit((BeforeText(x.before) + (EntryText(x.chosen) + rest))[0])
  {
    if x.before != [] {
      assert BeforeText(x.before)[0] == x.before[0].digits[0];
    } else {
      assert (BeforeText(x.before) + (EntryText(x.chosen) + rest))[0] == x.chosen.digits[0];
    }
  }

  lemma {:induction false} MultiIsChosen(s: string, o: Options, p: Parser, r: Skipped, q: Option<Parser>)
    requires p.i + 1 < |s| && IsDigit(s[p.i + 1])
    requires SkipItems(s, p.i + 1, o.multiIndex, o.upper) == Some(r) && r.count == o.multiIndex
    requires q == Chosen(s, o, p, r)
    ensures Multi(s, o, p) == q
  {
  }

  lemma {:induction false} ReadsMulti(s: string, o: Options, p: Parser, x: Part, rest: string)
    requires x.Choices? && GoodPart(x, o) && p.multiOk && p.i <= |s| && s[p.i..] == PartText(x) + rest
    ensures p.i < |s| && s[p.i] == '<' && Reads(s, o, p, x, Multi(s, o, p), rest)
  {
    var t := EntryText(x.chosen) + (AfterText(x.after) + (">" + rest));
    ChoicesText(x, rest);
    ChoicesBegin(x, o, AfterText(x.after) + (">" + rest));
    Suffix(s, p.i, "<", BeforeText(x.before) + t);
    assert s[p.i + 1] == s[p.i + 1..][0];
    SkipsBefore(s, p.i + 1, x.before, o.upper, t);
    var r := SkipItems(s, p.i + 1, o.multiIndex, o.upper).value;
    MultiIsChosen(s, o, p, r, Chosen(s, o, p, r));
    ReadsChosen(s, o, p, r, x, rest);
  }

  lemma {:induction false} ChosenFacts(s: string, o: Options, p: Parser, skipped: Skipped, end: nat) returns (n: nat)
    requires p.i < skipped.i <= |s| && Chosen(s, o, p, skipped).Some? && Chosen(s, o, p, skipped).value.i == end
    ensures NumberValue(s[skipped.i..DigitsEnd(s, skipped.i)]) < HARDENED
    ensures 0 < end <= |s| && s[end - 1] == '>' && 2 <= skipped.count + 1 + n <= 254
    ensures Rests(s, AfterMark(s, DigitsEnd(s, skipped.i), o.upper), o.upper, end - 1, n)
  {
    n := SkipRest(s, AfterMark(s, DigitsEnd(s, skipped.i), o.upper), o.upper).value.count;
  }

  lemma {:induction false} MultiFacts(s: string, o: Options, p: Parser) returns (r: Skipped)
    requires p.i < |s| && Multi(s, o, p).Some?
    ensures p.i + 1 < |s| && IsDigit(s[p.i + 1]) && Skips(s, p.i + 1, o.multiIndex, o.upper, r.i)
    ensures p.i < r.i < |s| && r.count == o.multiIndex && Multi(s, o, p) == Chosen(s, o, p, r)
    ensures o.multiIndex == 0 ==> IsDigit(s[r.i])
  {
    r := SkipItems(s, p.i + 1, o.multiIndex, o.upper).value;
    PathMulti.ChosenCloses(s, o, p, r);
    PathMulti.SkipsAllOrEnds(s, p.i + 1, o.multiIndex, o.upper);
  }

  lemma {:induction false} ChoicesJoin(x: Part, text: string, inside: string, items: string, behind: string,
        rest: string)
    requires x.Choices? && text == "<" + inside && inside == BeforeText(x.before) + items
    requires items == EntryText(x.chosen) + behind && behind == AfterText(x.after) + (">" + rest)
    ensures text == PartText(x) + rest
  {
    ChoicesText(x, rest);
  }

  predicate GoodChosen(e: Entry, upper: bool, first: bool) {
    Digits(e.digits) && Mark(e.mark, upper) && Decimal(e.digits) < 0x8000_0000 && (first ==> e.digits != "")
  }

  lemma {:induction false} ChosenEntry(s: string, i: nat, upper: bool, k: nat) returns (e: Entry)
    requires i < |s| && NumberValue(s[i..DigitsEnd(s, i)]) < HARDENED && k == AfterMark(s, DigitsEnd(s, i), upper)
    ensures i <= k <= |s| && GoodChosen(e, upper, IsDigit(s[i])) && s[i..] == EntryText(e) + s[k..]
    ensures e.mark == "" ==> Ends(s[k..], upper)
  {
    e := EntryOf(s, i, upper, k);
  }

  lemma {:induction false} AfterChosen(s: string, k: nat, mark: string, upper: bool, end: nat, n: int)
    returns (after: seq<Later>)
    requires k <= |s| && 0 < end <= |s| && s[end - 1] == '>' && Rests(s, k, upper, end - 1, n)
    requires mark == "" ==> Ends(s[k..], upper)
    ensures GoodAfter(mark, after, upper) && Semicolons(after) == n && s[k..] == AfterText(after) + (">" + s[end..])
  {
    CharThen(s, end - 1, '>');
    after := AfterOf(s, k, mark, upper, end - 1, n, ">" + s[end..]);
  }

  /** The parts of a multi-path put together: the items before `j`, and what starts there. */
  lemma {:induction false} ChoicesFrom(s: string, o: Options, i: nat, before: seq<Entry>, j: nat, end: nat, n: int)
    returns (x: Part)
    requires i < j < |s| && s[i] == '<' && s[i + 1..] == BeforeText(before) + s[j..]
    requires |before| == o.multiIndex && AllBefore(before, o.upper) && (before == [] ==> IsDigit(s[j]))
    requires NumberValue(s[j..DigitsEnd(s, j)]) < HARDENED && 2 <= |before| + 1 + n <= 254
    requires 0 < end <= |s| && s[end - 1] == '>'
    requires Rests(s, AfterMark(s, DigitsEnd(s, j), o.upper), o.upper, end - 1, n)
    ensures x.Choices? && GoodPart(x, o) && s[i..] == PartText(x) + s[end..]
  {
    var k := AfterMark(s, DigitsEnd(s, j), o.upper);
    var e := ChosenEntry(s, j, o.upper, k);
    var after := AfterChosen(s, k, e.mark, o.upper, end, n);
    x := Choices(before, e, after);
    CharThen(s, i, '<');
    ChoicesJoin(x, s[i..], s[i + 1..], s[j..], s[k..], s[end..]);
  }

  /** The items that a multi-path branch has skipped, and where the chosen one and the end are. */
  lemma {:induction false} MultiParts(s: string, o: Options, p: Parser, end: nat)
    returns (before: seq<Entry>, j: nat, n: int)
    requires p.i < |s| && Multi(s, o, p).Some? && Multi(s, o, p).value.i == end
    ensures p.i < j < |s| && s[p.i + 1..] == BeforeText(before) + s[j..]
    ensures |before| == o.multiIndex && AllBefore(before, o.upper) && (before == [] ==> IsDigit(s[j]))
    ensures NumberValue(s[j..DigitsEnd(s, j)]) < HARDENED && 2 <= |before| + 1 + n <= 254
    ensures 0 < end <= |s| && s[end - 1] == '>'
    ensures Rests(s, AfterMark(s, DigitsEnd(s, j), o.upper), o.upper, end - 1, n)
  {
    var r := MultiFacts(s, o, p);
    j := r.i;
    before := BeforeOf(s, p.i + 1, o.multiIndex, o.upper, j);
    n := ChosenFacts(s, o, p, r, end);
  }

  // ----- one part

  lemma {:induction false} ReadsIndex(s: string, o: Options, p: Parser, e: Entry, rest: string)
    requires p.i < |s| && s[p.i..] == EntryText(e) + rest && GoodPart(Index(e), o)
    requires e.mark == "" ==> Ends(rest, o.upper)
    ensures Reads(s, o, p, Index(e), Number(s, o, p), rest)
  {
    ReadsEntry(s, p.i, e, o.upper, rest);
  }

  lemma {:induction false} StarAndMark(s: string, i: nat, mark: string, upper: bool, rest: string)
    requires i <= |s| && s[i..] == ("*" + mark) + rest && Mark(mark, upper) && Ended(rest)
    ensures i < |s| && s[i] == '*' && MarkAt(s, i + 1, upper) == (mark != "")
    ensures var k := AfterMark(s, i + 1, upper); s[k..] == rest && (k < |s| ==> s[k] == '/')
  {
    assert s[i..] == "*" + (mark + rest);
    Suffix(s, i, "*", mark + rest);
    MarkAtEnd(s, i + 1, mark, upper, rest);
    Suffix(s, AfterMark(s, i + 1, upper), rest, "");
  }

  lemma {:induction false} ReadsStar(s: string, o: Options, p: Parser, mark: string, rest: string)
    requires p.i <= |s| && s[p.i..] == ("*" + mark) + rest && Mark(mark, o.upper) && Ended(rest)
    requires p.wildcardOk && (p.i > 0 ==> s[p.i - 1] == '/')
    ensures p.i < |s| && Reads(s, o, p, Star(mark), Wildcard(s, o, p), rest)
  {
    StarAndMark(s, p.i, mark, o.upper, rest);
  }

  lemma {:induction false} ReadsSeparator(s: string, o: Options, p: Parser, rest: string)
    requires AtEnd(s, o, p) && s[p.i..] == "/" + rest && rest != "" && rest[0] != '/'
    ensures p.i < |s| && Reads(s, o, p, Separator, Step(s, o, p), rest)
  {
    ReadsSlash(s, o, p, rest);
  }

  /** What can stand at the parser's position. */
  predicate CanStart(s: string, o: Options, p: Parser, x: Part)
    requires p.i <= |s|
  {
    && (x.Separator? ==> AtEnd(s, o, p))
    && (x.Star? ==> p.wildcardOk && (p.i == 0 || s[p.i - 1] == '/'))
    && (x.Choices? ==> p.multiOk)
  }

  /** What can stand behind a part. */
  predicate CanEnd(x: Part, upper: bool, rest: string) {
    && (x.Separator? ==> rest != "" && rest[0] != '/')
    && (x.Star? ==> Ended(rest))
    && (x.Index? && x.entry.mark == "" ==> Ends(rest, upper))
  }

  predicate Begins(x: Part, c: char) {
    && (x.Index? <==> IsDigit(c)) && (x.Separator? <==> c == '/')
    && (x.Star? <==> c == '*') && (x.Choices? <==> c == '<')
  }

  lemma {:induction false} PartBegins(x: Part, o: Options)
    requires GoodPart(x, o)
    ensures PartText(x) != "" && Begins(x, PartText(x)[0])
  {
    match x
    case Index(e) => assert PartText(x)[0] == e.digits[0];
    case Separator =>
    case Star(_) =>
    case Choices(_, _, _) =>
  }

  /** One iteration of the main loop reads a part, whatever it is. */
  lemma {:induction false} ReadsPart(s: string, o: Options, p: Parser, x: Part, rest: string)
    requires p.i <= |s| && s[p.i..] == PartText(x) + rest && GoodPart(x, o)
    requires CanStart(s, o, p, x) && CanEnd(x, o.upper, rest)
    ensures p.i < |s| && Reads(s, o, p, x, Step(s, o, p), rest)
  {
    PartBegins(x, o);
    Suffix(s, p.i, PartText(x), rest);
    StepCases(s, o, p);
    match x
    case Index(e) => ReadsIndex(s, o, p, e, rest);
    case Separator => ReadsSeparator(s, o, p, rest);
    case Star(mark) => ReadsStar(s, o, p, mark, rest);
    case Choices(_, _, _) => ReadsMulti(s, o, p, x, rest);
  }

  /** After a part comes a slash only if it is none itself, and a wildcard only if it is one. */
  lemma {:induction false} PartEnds(s: string, i: nat, x: Part, o: Options, j: nat)
    requires i <= j <= |s| && s[i..] == PartText(x) + s[j..] && GoodPart(x, o)
    ensures i < j && (x.Separator? <==> s[j - 1] == '/')
    ensures !x.Separator? ==> EndChar(s[j - 1], o.upper) && (IsMark(s[j - 1], o.upper) ==> IsHardened(x))
  {
    PartBegins(x, o);
    LastOf(s, i, PartText(x), s[j..]);
    match x
    case Index(e) =>
    case Separator =>
    case Star(mark) =>
    case Choices(before, chosen, after) => assert PartText(x)[|PartText(x)| - 1] == '>';
  }

  // ----- and back

  lemma {:induction false} IndexOf(s: string, o: Options, p: Parser, k: nat) returns (x: Part)
    requires p.i < |s| && IsDigit(s[p.i]) && Number(s, o, p).Some? && Number(s, o, p).value.i == k
    ensures x.Index? && GoodPart(x, o) && k <= |s| && s[p.i..] == PartText(x) + s[k..] && CanEnd(x, o.upper, s[k..])
  {
    var e := EntryOf(s, p.i, o.upper, k);
    x := Index(e);
  }

  lemma {:induction false} StarOf(s: string, o: Options, p: Parser, k: nat) returns (x: Part)
    requires p.i < |s| && Wildcard(s, o, p).Some? && Wildcard(s, o, p).value.i == k
    ensures x.Star? && GoodPart(x, o) && k <= |s| && s[p.i..] == PartText(x) + s[k..] && CanEnd(x, o.upper, s[k..])
    ensures CanStart(s, o, p, x)
  {
    var mark := s[p.i + 1..k];
    x := Star(mark);
    assert s[p.i..] == "*" + mark + s[k..];
    assert MarkAt(s, p.i + 1, o.upper) ==> mark == [s[p.i + 1]];
  }

  lemma {:induction false} ChoicesOf(s: string, o: Options, p: Parser, k: nat) returns (x: Part)
    requires p.i < |s| && s[p.i] == '<' && Multi(s, o, p).Some? && Multi(s, o, p).value.i == k
    ensures x.Choices? && GoodPart(x, o) && k <= |s| && s[p.i..] == PartText(x) + s[k..]
  {
    var before, j, n := MultiParts(s, o, p, k);
    x := ChoicesFrom(s, o, p.i, before, j, k, n);
  }

  /** What the iteration that does not fail has read. The slash needs a look at what precedes. */
  lemma {:induction false} PartOf(s: string, o: Options, p: Parser, k: nat) returns (x: Part)
    requires p.i < |s| && Step(s, o, p).Some? && Step(s, o, p).value.i == k
    requires p.i == 0 ==> s[0] != '/'
    requires p.i > 0 && IsMark(s[p.i - 1], o.upper) ==> p.features.isHardened
    ensures GoodPart(x, o) && k <= |s| && s[p.i..] == PartText(x) + s[k..] && CanEnd(x, o.upper, s[k..])
    ensures CanStart(s, o, p, x)
  {
    StepCases(s, o, p);
    if s[p.i] == '<' && p.multiOk {
      x := ChoicesOf(s, o, p, k);
    } else if IsDigit(s[p.i]) {
      x := IndexOf(s, o, p, k);
    } else if s[p.i] == '/' {
      x := Separator;
      CharThen(s, p.i, '/');
    } else {
      x := StarOf(s, o, p, k);
    }
  }
}
