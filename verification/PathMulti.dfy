/** What a multi-path index chooses in a string, well-formed or not. */
module PathMulti {
  import opened Common
  import opened PathSyntax
  import opened PathText
  import opened PathLaws
  import opened PathTheorems

  /** One item between the brackets, and whether a semicolon ends it. */
  datatype Piece = Piece(number: Child, ended: bool)

  /** The items from `i` on. One that no semicolon ends runs into the next, or is the last. */
  function Pieces(s: string, i: nat, upper: bool): seq<Piece>
    requires i <= |s|
    decreases |s| - i
  {
    match Item(s, i, upper)
    case None => []
    case Some(x) =>
      var n := Child(NumberValue(s[i..DigitsEnd(s, i)]), x.hardened);
      if x.i < |s| && s[x.i] == ';' then [Piece(n, true)] + Pieces(s, x.i + 1, upper)
      else [Piece(n, false)] + Pieces(s, x.i, upper)
  }

  /** A semicolon ends each of the first `k` items. */
  predicate AllEnded(pieces: seq<Piece>, k: nat) {
    k <= |pieces| && forall j :: 0 <= j < k ==> pieces[j].ended
  }

  /** ... and the `k`-th item is below 2^31. */
  predicate Reaches(pieces: seq<Piece>, k: nat) {
    k < |pieces| && AllEnded(pieces, k) && pieces[k].number.value < HARDENED
  }

  /** The main loop's state when it meets the multi-path. */
  function Opening(s: string, o: Options, p: Parser): (r: Option<Parser>)
    requires p.i <= |s|
    ensures r.Some? ==> r.value.i < |s| && s[r.value.i] == '<' && r.value.multiOk
    decreases |s| - p.i
  {
    if p.i == |s| then None
    else if s[p.i] == '<' && p.multiOk then Some(p)
    else
      match Step(s, o, p)
      case None => None
      case Some(q) => Opening(s, o, q)
  }

  // ----- inside the brackets

  /** An item at `i`, and items after it up to a closing bracket. */
  predicate Closed(s: string, i: nat, upper: bool)
    requires i <= |s|
  {
    var x := Item(s, i, upper);
    x.Some? && var r := SkipRest(s, x.value.i, upper); r.Some? && r.value.i < |s|
  }

  /** The end of the brackets, the semicolons up to there and whether any item is hardened. */
  function Summary(s: string, i: nat, upper: bool): Skipped
    requires i <= |s| && Closed(s, i, upper)
  {
    var x := Item(s, i, upper).value;
    var r := SkipRest(s, x.i, upper).value;
    Skipped(r.i, r.count, x.hardened || r.hardened)
  }

  function AddItem(x: Skipped, r: Skipped): Skipped {
    Skipped(r.i, r.count + 1, x.hardened || r.hardened)
  }

  lemma {:induction false} ClosedNext(s: string, i: nat, upper: bool)
    requires i <= |s| && Closed(s, i, upper)
    ensures var e := EndedItem(s, i, upper);
            i < |s| && (e.Some? ==> Closed(s, e.value.i, upper)
                                    && Summary(s, i, upper) == AddItem(e.value, Summary(s, e.value.i, upper)))
  {
  }

  lemma {:induction false} PiecesAre(s: string, i: nat, upper: bool, x: Skipped, n: Child, ended: bool,
        rest: seq<Piece>)
    requires i <= |s| && Item(s, i, upper) == Some(x) && (ended <==> x.i < |s| && s[x.i] == ';')
    requires n == Child(NumberValue(s[i..DigitsEnd(s, i)]), x.hardened)
    requires rest == Pieces(s, if ended then x.i + 1 else x.i, upper)
    ensures Pieces(s, i, upper) == [Piece(n, ended)] + rest
  {
  }

  lemma {:induction false} EndedIsItem(s: string, i: nat, upper: bool, x: Skipped, ended: bool)
    requires i <= |s| && Item(s, i, upper) == Some(x) && (ended <==> x.i < |s| && s[x.i] == ';')
    ensures EndedItem(s, i, upper) == if ended then Some(x.(i := x.i + 1)) else None
  {
  }

  lemma {:induction false} PiecesNext(s: string, i: nat, upper: bool)
    requires i <= |s| && Item(s, i, upper).Some?
    ensures var x, ps, e := Item(s, i, upper).value, Pieces(s, i, upper), EndedItem(s, i, upper);
            && ps != [] && ps[0].number == Child(NumberValue(s[i..DigitsEnd(s, i)]), x.hardened)
            && (ps[0].ended <==> e.Some?) && (e.Some? ==> ps[1..] == Pieces(s, e.value.i, upper))
  {
    var x := Item(s, i, upper).value;
    var n, ended := Child(NumberValue(s[i..DigitsEnd(s, i)]), x.hardened), x.i < |s| && s[x.i] == ';';
    var rest := Pieces(s, if ended then x.i + 1 else x.i, upper);
    EndedIsItem(s, i, upper, x, ended);
    PiecesAre(s, i, upper, x, n, ended, rest);
    assert ([Piece(n, ended)] + rest)[1..] == rest;
  }

  /** Skipping `k` items from `i` ends at the `k`-th piece, and the brackets' summary is kept. */
  predicate Lands(s: string, i: nat, k: nat, upper: bool, ps: seq<Piece>, r: Skipped)
    requires i <= |s| && Closed(s, i, upper)
  {
    && i <= r.i <= |s| && r.count == k < |ps| && Closed(s, r.i, upper)
    && ps[k].number == Child(NumberValue(s[r.i..DigitsEnd(s, r.i)]), Item(s, r.i, upper).value.hardened)
    && var t := Summary(s, r.i, upper);
       Summary(s, i, upper) == Skipped(t.i, t.count + k, r.hardened || t.hardened)
  }

  lemma AllEndedNext(ps: seq<Piece>, k: nat)
    requires ps != [] && k > 0
    ensures AllEnded(ps, k) <==> ps[0].ended && AllEnded(ps[1..], k - 1)
  {
    if ps[0].ended && AllEnded(ps[1..], k - 1) {
      assert forall j :: 1 <= j < k ==> ps[j] == ps[1..][j - 1];
    }
  }

  lemma {:induction false} LandsNext(s: string, i: nat, k: nat, upper: bool, ps: seq<Piece>, x: Skipped, r: Skipped)
    requires i <= x.i <= |s| && k > 0 && ps != [] && Closed(s, i, upper) && Closed(s, x.i, upper)
    requires Summary(s, i, upper) == AddItem(x, Summary(s, x.i, upper))
    requires Lands(s, x.i, k - 1, upper, ps[1..], r)
    ensures Lands(s, i, k, upper, ps, AddItem(x, r))
  {
  }

  lemma {:induction false} LandsAtOnce(s: string, i: nat, upper: bool)
    requires i <= |s| && Closed(s, i, upper)
    ensures Lands(s, i, 0, upper, Pieces(s, i, upper), Skipped(i, 0, false))
  {
    PiecesNext(s, i, upper);
  }

  lemma {:induction false} SkipItemsIs(s: string, i: nat, k: nat, upper: bool)
    requires i < |s| && k > 0
    ensures EndedItem(s, i, upper).None? ==> SkipItems(s, i, k, upper) == None
    ensures EndedItem(s, i, upper).Some? ==>
              var x := EndedItem(s, i, upper).value;
              var r := SkipItems(s, x.i, k - 1, upper);
              SkipItems(s, i, k, upper) == if r.None? then None else Some(AddItem(x, r.value))
  {
  }

  /** The first `k` items can be skipped exactly when a semicolon ends each, and that leads to
      the `k`-th. */
  predicate Skips(s: string, i: nat, k: nat, upper: bool, ps: seq<Piece>, r: Option<Skipped>)
    requires i <= |s| && Closed(s, i, upper)
  {
    if r.None? then !AllEnded(ps, k) else AllEnded(ps, k) && Lands(s, i, k, upper, ps, r.value)
  }

  lemma {:induction false} SkipsNext(s: string, i: nat, k: nat, upper: bool, ps: seq<Piece>, rest: seq<Piece>,
        x: Skipped, r: Option<Skipped>)
    requires i <= x.i <= |s| && k > 0 && ps != [] && ps[0].ended && Closed(s, i, upper) && Closed(s, x.i, upper)
    requires Summary(s, i, upper) == AddItem(x, Summary(s, x.i, upper))
    requires rest == ps[1..] && Skips(s, x.i, k - 1, upper, rest, r)
    ensures Skips(s, i, k, upper, ps, if r.None? then None else Some(AddItem(x, r.value)))
  {
    AllEndedNext(ps, k);
    if r.Some? {
      LandsNext(s, i, k, upper, ps, x, r.value);
    }
  }

  lemma {:induction false} SkipsPieces(s: string, i: nat, k: nat, upper: bool)
    requires i <= |s| && Closed(s, i, upper)
    ensures Skips(s, i, k, upper, Pieces(s, i, upper), SkipItems(s, i, k, upper))
    decreases k
  {
    if k == 0 {
      LandsAtOnce(s, i, upper);
    } else {
      var e, ps := EndedItem(s, i, upper), Pieces(s, i, upper);
      ClosedNext(s, i, upper);
      PiecesNext(s, i, upper);
      SkipItemsIs(s, i, k, upper);
      if e.Some? {
        var x := e.value;
        SkipsPieces(s, x.i, k - 1, upper);
        SkipsNext(s, i, k, upper, ps, Pieces(s, x.i, upper), x, SkipItems(s, x.i, k - 1, upper));
      }
    }
  }

  // ----- the multi-path as a whole

  lemma {:induction false} ChosenOf(s: string, o: Options, p: Parser, skipped: Skipped)
    requires p.i < skipped.i <= |s| && Closed(s, skipped.i, o.upper)
    ensures var n := Child(NumberValue(s[skipped.i..DigitsEnd(s, skipped.i)]),
                           Item(s, skipped.i, o.upper).value.hardened);
            var t := Summary(s, skipped.i, o.upper);
            var count := skipped.count + 1 + t.count;
            Chosen(s, o, p, skipped) ==
            if n.value >= HARDENED || count < 2 || count >= 255 then None
            else Some(AfterChoice(p, t.i + 1, n, count, skipped.hardened || t.hardened))
  {
  }

  /** The state after the multi-path when its items are `ps`, its brackets are summed up by
      `whole` and the `k`-th item is asked for. */
  function Picked(p: Parser, ps: seq<Piece>, whole: Skipped, k: nat): Option<Parser> {
    if Reaches(ps, k) && 1 <= whole.count < 254 then
      Some(AfterChoice(p, whole.i + 1, ps[k].number, whole.count + 1, whole.hardened))
    else None
  }

  lemma {:induction false} StartsWithDigit(s: string, i: nat, upper: bool)
    requires i < |s| && Item(s, i, upper).Some?
    ensures IsDigit(s[i])
  {
  }

  lemma {:induction false} ChosenIsPicked(s: string, o: Options, p: Parser, r: Skipped, ps: seq<Piece>, whole: Skipped)
    requires p.i < r.i <= |s| && Closed(s, r.i, o.upper) && r.count == o.multiIndex < |ps| && AllEnded(ps, o.multiIndex)
    requires ps[o.multiIndex].number ==
             Child(NumberValue(s[r.i..DigitsEnd(s, r.i)]), Item(s, r.i, o.upper).value.hardened)
    requires var t := Summary(s, r.i, o.upper); whole == Skipped(t.i, t.count + r.count, r.hardened || t.hardened)
    ensures Chosen(s, o, p, r) == Picked(p, ps, whole, o.multiIndex)
  {
    ChosenOf(s, o, p, r);
  }

  lemma {:induction false} MultiIsChosen(s: string, o: Options, p: Parser)
    requires p.i + 1 < |s| && IsDigit(s[p.i + 1])
    requires var r := SkipItems(s, p.i + 1, o.multiIndex, o.upper); r.Some? ==> r.value.count == o.multiIndex
    ensures var r := SkipItems(s, p.i + 1, o.multiIndex, o.upper);
            Multi(s, o, p) == if r.None? then None else Chosen(s, o, p, r.value)
  {
    MultiIs(s, o, p);
  }

  lemma {:induction false} SkippedIsPicked(s: string, o: Options, p: Parser, ps: seq<Piece>, whole: Skipped)
    requires p.i + 1 < |s| && IsDigit(s[p.i + 1]) && Closed(s, p.i + 1, o.upper)
    requires whole == Summary(s, p.i + 1, o.upper)
    requires Skips(s, p.i + 1, o.multiIndex, o.upper, ps, SkipItems(s, p.i + 1, o.multiIndex, o.upper))
    ensures Multi(s, o, p) == Picked(p, ps, whole, o.multiIndex)
  {
    MultiIsChosen(s, o, p);
    match SkipItems(s, p.i + 1, o.multiIndex, o.upper)
    case None =>
    case Some(r) => ChosenIsPicked(s, o, p, r, ps, whole);
  }

  /** What the multi-path comes to, when its brackets close. */
  lemma {:induction false} MultiIsPicked(s: string, o: Options, p: Parser)
    requires p.i < |s| && Closed(s, p.i + 1, o.upper)
    ensures Multi(s, o, p) == Picked(p, Pieces(s, p.i + 1, o.upper), Summary(s, p.i + 1, o.upper), o.multiIndex)
  {
    ClosedNext(s, p.i + 1, o.upper);
    StartsWithDigit(s, p.i + 1, o.upper);
    SkipsPieces(s, p.i + 1, o.multiIndex, o.upper);
    SkippedIsPicked(s, o, p, Pieces(s, p.i + 1, o.upper), Summary(s, p.i + 1, o.upper));
  }

  /** With index 0 only brackets that close are accepted. */
  lemma {:induction false} MultiCloses(s: string, o: Options, p: Parser)
    requires p.i < |s| && o.multiIndex == 0 && Multi(s, o, p).Some?
    ensures Closed(s, p.i + 1, o.upper)
  {
    MultiIs(s, o, p);
    assert SkipItems(s, p.i + 1, 0, o.upper) == Some(Skipped(p.i + 1, 0, false));
  }

  // ----- the main loop

  lemma {:induction false} StepSame(s: string, o: Options, k: nat, p: Parser)
    requires p.i < |s| && !(s[p.i] == '<' && p.multiOk)
    ensures Step(s, o, p) == Step(s, o.(multiIndex := k), p)
  {
  }

  /** Up to the multi-path the index plays no part. */
  lemma {:induction false} SameOpening(s: string, o: Options, k: nat, p: Parser)
    requires p.i <= |s|
    ensures Opening(s, o, p) == Opening(s, o.(multiIndex := k), p)
    decreases |s| - p.i
  {
    if p.i < |s| && !(s[p.i] == '<' && p.multiOk) {
      StepSame(s, o, k, p);
      match Step(s, o, p)
      case None =>
      case Some(q) => SameOpening(s, o, k, q);
    }
  }

  lemma {:induction false} RunFromOpening(s: string, o: Options, p: Parser)
    requires p.i <= |s| && Opening(s, o, p).Some?
    ensures Run(s, o, p) == Run(s, o, Opening(s, o, p).value) && p.multiOk
    decreases |s| - p.i
  {
    if !(s[p.i] == '<' && p.multiOk) {
      RunFromOpening(s, o, Step(s, o, p).value);
    }
  }

  lemma {:induction false} NoOpening(s: string, o: Options, p: Parser)
    requires p.i <= |s| && Opening(s, o, p).None? && Run(s, o, p).Some?
    ensures Run(s, o, p).value.features.isMulti == p.features.isMulti
    decreases |s| - p.i
  {
    if p.i < |s| {
      NoOpening(s, o, Step(s, o, p).value);
    }
  }

  lemma {:induction false} NoBracket(s: string, i: nat, j: nat)
    requires i <= j <= |s| && AllDigits(s[i..j])
    ensures forall k :: i <= k < j ==> s[k] != '<'
  {
    assert forall k :: i <= k < j ==> s[i..j][k - i] == s[k];
  }

  lemma {:induction false} StepOverNoBracket(s: string, o: Options, p: Parser)
    requires p.i < |s| && !(s[p.i] == '<' && p.multiOk) && Step(s, o, p).Some?
    ensures forall k :: p.i <= k < Step(s, o, p).value.i ==> s[k] != '<'
  {
    NoBracket(s, p.i, DigitsEnd(s, p.i));
  }

  /** The multi-path is at the first opening bracket. */
  lemma {:induction false} OpeningIsFirst(s: string, o: Options, p: Parser)
    requires p.i <= |s| && Opening(s, o, p).Some?
    ensures var i := Opening(s, o, p).value.i; p.i <= i && forall k :: p.i <= k < i ==> s[k] != '<'
    decreases |s| - p.i
  {
    if !(s[p.i] == '<' && p.multiOk) {
      StepOverNoBracket(s, o, p);
      OpeningIsFirst(s, o, Step(s, o, p).value);
    }
  }

  /** The two loops are past the multi-path and have the same state but for its element. */
  predicate Beside(p: Parser, q: Parser, m: nat, v: nat) {
    m < |p.path| && !p.multiOk && q == p.(path := p.path[m := v])
  }

  predicate KeepsMulti(f: Features, g: Features) {
    g.multiCount == f.multiCount && g.isMulti == f.isMulti
  }

  lemma {:induction false} StepBeside(s: string, o: Options, k: nat, p: Parser, q: Parser, m: nat, v: nat)
    requires p.i < |s| && Beside(p, q, m, v)
    ensures var x, y := Step(s, o, p), Step(s, o.(multiIndex := k), q);
            && x.Some? == y.Some?
            && (x.Some? ==> Beside(x.value, y.value, m, v) && p.path <= x.value.path
                            && KeepsMulti(p.features, x.value.features))
  {
    if !(s[p.i] == '<' && p.multiOk) && Step(s, o, p).Some? {
      assert Step(s, o, p).value.path[m := v][..|q.path|] == q.path;
    }
  }

  lemma {:induction false} RunBeside(s: string, o: Options, k: nat, p: Parser, q: Parser, m: nat, v: nat)
    requires p.i <= |s| && Beside(p, q, m, v)
    ensures var x, y := Run(s, o, p), Run(s, o.(multiIndex := k), q);
            && x.Some? == y.Some?
            && (x.Some? ==> Beside(x.value, y.value, m, v) && p.path <= x.value.path
                            && KeepsMulti(p.features, x.value.features))
    decreases |s| - p.i
  {
    if p.i < |s| {
      StepBeside(s, o, k, p, q, m, v);
      if Step(s, o, p).Some? {
        RunBeside(s, o, k, Step(s, o, p).value, Step(s, o.(multiIndex := k), q).value, m, v);
      }
    }
  }

  // ----- the whole string

  /** Where the multi-path of `s` is met, if it is. */
  function MultiPath(s: string, o: Options): (r: Option<Parser>)
    ensures r.Some? ==> r.value.i < |s| && s[r.value.i] == '<'
  {
    match Start(s, o)
    case None => None
    case Some(p) => Opening(s, o, p)
  }

  /** The items of a multi-path met at `p`. */
  function ItemsAt(s: string, o: Options, p: Parser): seq<Piece>
    requires p.i < |s|
  {
    Pieces(s, p.i + 1, o.upper)
  }

  lemma {:induction false} PickedBeside(p: Parser, ps: seq<Piece>, whole: Skipped, j: nat, k: nat)
    requires Picked(p, ps, whole, j).Some?
    ensures Picked(p, ps, whole, k).Some? <==> Reaches(ps, k)
    ensures Reaches(ps, k) ==>
              Beside(Picked(p, ps, whole, j).value, Picked(p, ps, whole, k).value, |p.path|, ChildMeaning(ps[k].number))
  {
    if Reaches(ps, k) {
      assert (p.path + [ChildMeaning(ps[j].number)])[|p.path| := ChildMeaning(ps[k].number)] ==
             p.path + [ChildMeaning(ps[k].number)];
    }
  }

  /** The main loop goes on from a multi-path, if it picks an item. */
  function RunOn(s: string, o: Options, q: Option<Parser>): Option<Parser>
    requires q.Some? ==> q.value.i <= |s|
  {
    match q
    case None => None
    case Some(x) => Run(s, o, x)
  }

  lemma {:induction false} RunIsRunOn(s: string, o: Options, p: Parser)
    requires p.i < |s| && s[p.i] == '<' && p.multiOk && Closed(s, p.i + 1, o.upper)
    ensures var q := Picked(p, ItemsAt(s, o, p), Summary(s, p.i + 1, o.upper), o.multiIndex);
            (q.Some? ==> q.value.i <= |s|) && Run(s, o, p) == RunOn(s, o, q)
  {
    MultiIsPicked(s, o, p);
    assert Step(s, o, p) == Multi(s, o, p);
  }

  /** `y` is `x` with the `k`-th item's value at `m`, or nothing if that item cannot be picked. */
  predicate Replaced(x: Parser, y: Option<Parser>, m: nat, ps: seq<Piece>, j: nat, k: nat) {
    && Reaches(ps, j) && m < |x.path| && x.path[m] == ChildMeaning(ps[j].number)
    && y == if Reaches(ps, k) then Some(x.(path := x.path[m := ChildMeaning(ps[k].number)])) else None
  }

  lemma {:induction false} RunOnBeside(s: string, o: Options, k: nat, p: Parser, ps: seq<Piece>, whole: Skipped)
    requires whole.i < |s|
    requires RunOn(s, o, Picked(p, ps, whole, o.multiIndex)).Some?
    ensures var x := RunOn(s, o, Picked(p, ps, whole, o.multiIndex)).value;
            && Replaced(x, RunOn(s, o.(multiIndex := k), Picked(p, ps, whole, k)), |p.path|, ps, o.multiIndex, k)
            && x.features.isMulti && x.features.multiCount == whole.count + 1
  {
    PickedBeside(p, ps, whole, o.multiIndex, k);
    var q := Picked(p, ps, whole, o.multiIndex).value;
    RunBeside(s, o, k, q, q.(path := q.path[|p.path| := 0]), |p.path|, 0);
    if Reaches(ps, k) {
      RunBeside(s, o, k, q, Picked(p, ps, whole, k).value, |p.path|, ChildMeaning(ps[k].number));
    }
  }

  lemma {:induction false} ReachedIsCounted(s: string, i: nat, k: nat, upper: bool)
    requires i <= |s| && Closed(s, i, upper) && AllEnded(Pieces(s, i, upper), k)
    ensures k <= Summary(s, i, upper).count
  {
    SkipsPieces(s, i, k, upper);
  }

  /** Run on from a multi-path whose brackets close, index `k` does what index `j` does, but for
      the one element, if it reaches an item. */
  lemma {:induction false} RunsBesideFrom(s: string, o: Options, k: nat, p: Parser, x: Option<Parser>,
        y: Option<Parser>, ps: seq<Piece>, whole: Skipped)
    requires p.i < |s| && Closed(s, p.i + 1, o.upper) && x.Some?
    requires ps == ItemsAt(s, o, p) && whole == Summary(s, p.i + 1, o.upper)
    requires x == RunOn(s, o, Picked(p, ps, whole, o.multiIndex))
    requires y == RunOn(s, o.(multiIndex := k), Picked(p, ps, whole, k))
    ensures Replaced(x.value, y, |p.path|, ps, o.multiIndex, k)
    ensures Reaches(ps, k) ==> k < x.value.features.multiCount
  {
    RunOnBeside(s, o, k, p, ps, whole);
    if AllEnded(ps, k) {
      ReachedIsCounted(s, p.i + 1, k, o.upper);
    }
  }

  lemma {:induction false} RunsBeside(s: string, o: Options, k: nat, p: Parser)
    requires p.i < |s| && s[p.i] == '<' && p.multiOk && Closed(s, p.i + 1, o.upper) && Run(s, o, p).Some?
    ensures var x := Run(s, o, p).value;
            && Replaced(x, Run(s, o.(multiIndex := k), p), |p.path|, ItemsAt(s, o, p), o.multiIndex, k)
            && (Reaches(ItemsAt(s, o, p), k) ==> k < x.features.multiCount)
  {
    var ps, whole := ItemsAt(s, o, p), Summary(s, p.i + 1, o.upper);
    RunIsRunOn(s, o, p);
    RunIsRunOn(s, o.(multiIndex := k), p);
    RunsBesideFrom(s, o, k, p, Run(s, o, p), Run(s, o.(multiIndex := k), p), ps, whole);
  }

  /** An accepted string with a multi-path ran through its opening bracket. */
  lemma {:induction false} RanThrough(s: string, o: Options)
    requires Parse(s, o).Some? && Parse(s, o).value.features.isMulti
    ensures MultiPath(s, o).Some?
    ensures var p := MultiPath(s, o).value;
            && s[p.i] == '<' && p.multiOk && o.multipath && Run(s, o, p).Some?
            && Run(s, o, p) == Run(s, o, Start(s, o).value)
            && forall k :: 0 <= k < p.i ==> s[k] != '<'
  {
    var p := Start(s, o).value;
    if Opening(s, o, p).None? {
      NoOpening(s, o, p);
    }
    RunFromOpening(s, o, p);
    OpeningIsFirst(s, o, p);
  }

  /** What a run comes to. */
  function Result(o: Options, x: Option<Parser>): Option<Parsed> {
    if x.Some? && Accepted(o, x.value) then Some(Parsed(x.value.path, x.value.features)) else None
  }

  lemma {:induction false} ParseRunsFrom(s: string, o: Options, k: nat)
    requires s != "" && ValidOptions(o) && o.multipath && MultiPath(s, o).Some?
    ensures var p := MultiPath(s, o).value;
            Parse(s, o.(multiIndex := k)) == Result(o.(multiIndex := k), Run(s, o.(multiIndex := k), p))
  {
    var p := Start(s, o).value;
    SameOpening(s, o, k, p);
    RunFromOpening(s, o.(multiIndex := k), p);
  }

  /** The result `x`, whose element `m` is the item `j`, turned into that of index `k`: `y` has the
      item `k` there instead, or is a rejection. */
  predicate ChoosesItem(x: Parsed, y: Option<Parsed>, m: nat, ps: seq<Piece>, j: nat, k: nat) {
    && Reaches(ps, j) && m < |x.path| && x.path[m] == ChildMeaning(ps[j].number)
    && y == if Reaches(ps, k) then Some(x.(path := x.path[m := ChildMeaning(ps[k].number)])) else None
  }

  lemma {:induction false} ResultBeside(o: Options, k: nat, x: Option<Parser>, y: Option<Parser>, m: nat,
        ps: seq<Piece>)
    requires Result(o, x).Some? && Result(o, x).value.features.isMulti
    requires Replaced(x.value, y, m, ps, o.multiIndex, k) && o.multipath
    ensures ChoosesItem(Result(o, x).value, Result(o.(multiIndex := k), y), m, ps, o.multiIndex, k)
  {
  }

  lemma {:induction false} ClosesAtZero(s: string, o: Options)
    requires o.multiIndex == 0 && Parse(s, o).Some? && Parse(s, o).value.features.isMulti
    ensures MultiPath(s, o).Some? && Closed(s, MultiPath(s, o).value.i + 1, o.upper)
  {
    RanThrough(s, o);
    var p := MultiPath(s, o).value;
    assert Step(s, o, p) == Multi(s, o, p);
    MultiCloses(s, o, p);
  }

  lemma {:induction false} ZeroRunsBeside(s: string, o: Options, k: nat, p: Parser)
    requires o.multiIndex == 0 && Parse(s, o).Some? && Parse(s, o).value.features.isMulti
    requires MultiPath(s, o) == Some(p)
    ensures o.multipath && Run(s, o, p).Some? && Parse(s, o) == Result(o, Run(s, o, p))
    ensures var x := Run(s, o, p).value;
            && Replaced(x, Run(s, o.(multiIndex := k), p), |p.path|, ItemsAt(s, o, p), 0, k)
            && (Reaches(ItemsAt(s, o, p), k) ==> k < x.features.multiCount)
  {
    ClosesAtZero(s, o);
    RanThrough(s, o);
    ParseRunsFrom(s, o, 0);
    RunsBeside(s, o, k, p);
  }

  /** Of any string accepted with index 0 that has a multi-path, an index is accepted exactly when
      a semicolon ends each item before it and its own is below 2^31; then only the multi-path's
      element changes, to that item. From the number of items on, an index is rejected. */
  lemma {:induction false} MultiIndexExactly(s: string, o: Options, k: nat)
    requires o.multiIndex == 0 && Parse(s, o).Some? && Parse(s, o).value.features.isMulti
    ensures MultiPath(s, o).Some? && forall j :: 0 <= j < MultiPath(s, o).value.i ==> s[j] != '<'
    ensures var x, p := Parse(s, o).value, MultiPath(s, o).value;
            && ChoosesItem(x, Parse(s, o.(multiIndex := k)), |p.path|, ItemsAt(s, o, p), 0, k)
            && (Reaches(ItemsAt(s, o, p), k) ==> k < x.features.multiCount)
  {
    RanThrough(s, o);
    var p := MultiPath(s, o).value;
    ZeroRunsBeside(s, o, k, p);
    ParseRunsFrom(s, o, k);
    ResultBeside(o, k, Run(s, o, p), Run(s, o.(multiIndex := k), p), |p.path|, ItemsAt(s, o, p));
  }

  // ----- index 0 of strings accepted with another

  lemma {:induction false} ClosedStep(s: string, i: nat, upper: bool, x: Skipped)
    requires i <= |s| && EndedItem(s, i, upper) == Some(x) && Closed(s, x.i, upper)
    ensures Closed(s, i, upper)
  {
    var y := Item(s, x.i, upper).value;
    SkipRestStep(s, x.i - 1, upper, y, SkipRest(s, y.i, upper).value);
  }

  lemma {:induction false} ClosedBack(s: string, i: nat, k: nat, upper: bool, r: Skipped)
    requires i <= |s| && SkipItems(s, i, k, upper) == Some(r) && r.count == k && Closed(s, r.i, upper)
    ensures Closed(s, i, upper)
    decreases k
  {
    if k > 0 {
      var x := EndedItem(s, i, upper).value;
      ClosedBack(s, x.i, k - 1, upper, SkipItems(s, x.i, k - 1, upper).value);
      ClosedStep(s, i, upper, x);
    }
  }

  lemma {:induction false} PieceIsItem(s: string, i: nat, k: nat, upper: bool, r: Skipped)
    requires i <= |s| && SkipItems(s, i, k, upper) == Some(r) && r.count == k < |Pieces(s, i, upper)|
    ensures Item(s, r.i, upper).Some?
    decreases k
  {
    if k > 0 {
      PiecesNext(s, i, upper);
      var x := EndedItem(s, i, upper).value;
      PieceIsItem(s, x.i, k - 1, upper, SkipItems(s, x.i, k - 1, upper).value);
    }
  }

  lemma {:induction false} SkipsAllOrEnds(s: string, i: nat, k: nat, upper: bool)
    requires i <= |s| && SkipItems(s, i, k, upper).Some?
    ensures var r := SkipItems(s, i, k, upper).value; r.count == k || r.i == |s|
    decreases k
  {
    if k > 0 && i < |s| {
      SkipsAllOrEnds(s, EndedItem(s, i, upper).value.i, k - 1, upper);
    }
  }

  lemma {:induction false} ChosenCloses(s: string, o: Options, p: Parser, skipped: Skipped)
    requires p.i < skipped.i <= |s| && Chosen(s, o, p, skipped).Some?
    ensures skipped.i < |s| && (Item(s, skipped.i, o.upper).Some? ==> Closed(s, skipped.i, o.upper))
  {
  }

  lemma {:induction false} ItemsClose(s: string, i: nat, k: nat, upper: bool, r: Skipped)
    requires i <= |s| && SkipItems(s, i, k, upper) == Some(r) && k < |Pieces(s, i, upper)|
    requires r.i < |s| && (Item(s, r.i, upper).Some? ==> Closed(s, r.i, upper))
    ensures Closed(s, i, upper)
  {
    SkipsAllOrEnds(s, i, k, upper);
    PieceIsItem(s, i, k, upper, r);
    ClosedBack(s, i, k, upper, r);
  }

  lemma {:induction false} MultiReaches(s: string, o: Options, p: Parser) returns (r: Skipped)
    requires p.i < |s| && Multi(s, o, p).Some?
    ensures SkipItems(s, p.i + 1, o.multiIndex, o.upper) == Some(r)
    ensures r.i < |s| && (Item(s, r.i, o.upper).Some? ==> Closed(s, r.i, o.upper))
  {
    MultiIs(s, o, p);
    r := Reached(s, o, p.i).value;
    ChosenCloses(s, o, p, r);
  }

  /** If the item asked for is there and not empty, the brackets close. */
  lemma {:induction false} MultiClosesAt(s: string, o: Options, p: Parser)
    requires p.i < |s| && Multi(s, o, p).Some? && o.multiIndex < |ItemsAt(s, o, p)|
    ensures Closed(s, p.i + 1, o.upper)
  {
    var r := MultiReaches(s, o, p);
    ItemsClose(s, p.i + 1, o.multiIndex, o.upper, r);
  }

  lemma {:induction false} PicksAnItem(s: string, o: Options, p: Parser)
    requires p.i < |s| && Closed(s, p.i + 1, o.upper) && Multi(s, o, p).Some?
    ensures o.multiIndex < |ItemsAt(s, o, p)|
  {
    MultiIsPicked(s, o, p);
  }

  lemma {:induction false} RunsFirst(s: string, o: Options, p: Parser)
    requires p.i < |s| && s[p.i] == '<' && p.multiOk && Run(s, o, p).Some?
    ensures var ps, y := ItemsAt(s, o, p), Run(s, o.(multiIndex := 0), p);
            && (y.Some? ==> o.multiIndex < |ps|)
            && (o.multiIndex < |ps| ==> Replaced(Run(s, o, p).value, y, |p.path|, ps, o.multiIndex, 0))
  {
    assert Step(s, o, p) == Multi(s, o, p);
    assert Step(s, o.(multiIndex := 0), p) == Multi(s, o.(multiIndex := 0), p);
    if Multi(s, o.(multiIndex := 0), p).Some? {
      MultiCloses(s, o.(multiIndex := 0), p);
      PicksAnItem(s, o, p);
    }
    if o.multiIndex < |ItemsAt(s, o, p)| {
      MultiClosesAt(s, o, p);
      RunsBeside(s, o, 0, p);
    }
  }

  /** A string accepted with another index is accepted with index 0 exactly when the item it was
      accepted with is not empty and the first is below 2^31. */
  lemma {:induction false} FirstIndexExactly(s: string, o: Options)
    requires o.multiIndex > 0 && Parse(s, o).Some?
    ensures MultiPath(s, o).Some?
    ensures var ps := ItemsAt(s, o, MultiPath(s, o).value);
            Parse(s, o.(multiIndex := 0)).Some? <==> o.multiIndex < |ps| && ps[0].number.value < HARDENED
  {
    RanThrough(s, o);
    var p := MultiPath(s, o).value;
    ParseRunsFrom(s, o, o.multiIndex);
    ParseRunsFrom(s, o, 0);
    RunsFirst(s, o, p);
    var x, y, ps := Run(s, o, p), Run(s, o.(multiIndex := 0), p), ItemsAt(s, o, p);
    if o.multiIndex < |ps| {
      ResultBeside(o, 0, x, y, |p.path|, ps);
    }
  }

  // ----- strings outside the grammar

  lemma {:induction false} LoosePieces(s: string)
    requires s == "<0;>"
    ensures Item(s, 1, false) == Some(Skipped(2, 1, false)) && Item(s, 3, false) == None
    ensures EndedItem(s, 1, false) == Some(Skipped(3, 1, false))
    ensures SkipItems(s, 1, 1, false) == Some(Skipped(3, 1, false))
    ensures DigitsEnd(s, 1) == 2 && DigitsEnd(s, 3) == 3
    ensures SkipRest(s, 2, false) == None && SkipRest(s, 3, false) == Some(Skipped(3, 0, false))
  {
    assert s[1] == '0' && s[2] == ';' && s[3] == '>' && |s| == 4;
    assert DigitsEnd(s, 2) == 2 && DigitsEnd(s, 3) == 3;
    assert SkipItems(s, 3, 0, false) == Some(Skipped(3, 0, false));
  }

  lemma {:induction false} LooseSteps(s: string, o: Options, p: Parser)
    requires s == "<0;>" && !o.upper && p.i == 0 && p.path == [] && p.multiOk
    requires p.features == Features(true, false, false, false, 0, 0)
    ensures o.multiIndex == 0 ==> Step(s, o, p) == None
    ensures o.multiIndex == 1 ==>
              Step(s, o, p) ==
              Some(Parser(4, [0], Features(true, false, false, true, 0, 2), p.wildcardOk, false))
  {
    LoosePieces(s);
    assert s[0] == '<' && s[1] == '0' && s[2] == ';' && s[3] == '>' && |s| == 4;
    assert !MarkAt(s, 2, false) && !MarkAt(s, 3, false);
    if o.multiIndex == 1 {
      assert s[3..3] == "";
      ChosenIs(s, o, p, Skipped(3, 1, false), Child(0, false), 3, Skipped(3, 0, false), 2);
      assert p.path + [0] == [0];
    } else if o.multiIndex == 0 {
      assert SkipItems(s, 1, 0, false) == Some(Skipped(1, 0, false));
      assert Chosen(s, o, p, Skipped(1, 0, false)) == None;
    }
  }

  /** Accepted, but not with index 0: `<0;>` has an item 1, the empty one, that index 0 stumbles over. */
  lemma {:induction false} LooseMultiPath(s: string, o: Options)
    requires s == "<0;>" && o == Options(0, 0, false, false, false, true, false)
    ensures Parse(s, o) == None
    ensures Parse(s, o.(multiIndex := 1)) == Some(Parsed([0], Features(true, false, false, true, 0, 2)))
  {
    var p := Parser(0, [], Features(true, false, false, false, 0, 0), false, true);
    var q := Parser(4, [0], Features(true, false, false, true, 0, 2), false, false);
    assert s[0] == '<' && HeaderEnd(s, false) == 0;
    assert Start(s, o) == Some(p) && Start(s, o.(multiIndex := 1)) == Some(p);
    LooseSteps(s, o, p);
    LooseSteps(s, o.(multiIndex := 1), p);
    assert Run(s, o.(multiIndex := 1), q) == Some(q);
  }

  const BARE: Features := Features(true, false, false, false, 0, 0)

  /** No flag but the multi-path's. */
  const MULTI: Options := Options(0, 0, false, false, false, true, false)

  lemma {:induction false} BracketedCloses(s: string, i: nat, items: seq<Child>, mark: char, upper: bool)
    requires i <= |s| && items != [] && s[i..] == Bracketed(items, mark) + "" && IsMark(mark, upper)
    ensures Closed(s, i, upper) && Summary(s, i, upper) == Skipped(|s| - 1, |items| - 1, AnyHardened(items))
    ensures Pieces(s, i, upper) != [] && Pieces(s, i, upper)[0].number == items[0]
  {
    ChosenParts(s, i, items, mark, upper, "");
    BracketedRest(items, mark, "");
    ItemsTextEnds(items[1..], mark, "", upper);
    ItemAt(s, i, items[0], mark, upper, ItemsText(items[1..], mark) + (">" + ""));
    AnyHardenedFirst(items);
    PiecesNext(s, i, upper);
  }

  lemma {:induction false} TwoPieces(s: string, i: nat, items: seq<Child>, mark: char, upper: bool)
    requires i <= |s| && |items| == 2 && s[i..] == Bracketed(items, mark) + "" && IsMark(mark, upper)
    requires Closed(s, i, upper)
    ensures var ps := Pieces(s, i, upper); |ps| >= 2 && ps[0].ended && ps[1].number == items[1]
  {
    FirstItem(s, i, items, mark, upper, "");
    PiecesNext(s, i, upper);
    BracketedCloses(s, EndedItem(s, i, upper).value.i, items[1..], mark, upper);
  }

  /** A string that is a multi-path and nothing else. */
  lemma {:induction false} RunOfMulti(s: string, p: Parser, q: Parser)
    requires s != "" && s[0] == '<' && p == Parser(0, [], BARE, false, true)
    requires Multi(s, MULTI, p) == Some(q) && q.i == |s| && |q.path| == 1
    ensures MultiPath(s, MULTI) == Some(p) && Parse(s, MULTI) == Some(Parsed(q.path, q.features))
  {
    assert HeaderEnd(s, false) == 0 && Start(s, MULTI) == Some(p);
    assert Step(s, MULTI, p) == Multi(s, MULTI, p);
    assert Run(s, MULTI, q) == Some(q);
  }

  lemma PickedFirst(p: Parser, ps: seq<Piece>, whole: Skipped)
    requires ps != [] && ps[0].number.value < HARDENED && 1 <= whole.count < 254
    ensures Picked(p, ps, whole, 0) == Some(AfterChoice(p, whole.i + 1, ps[0].number, whole.count + 1, whole.hardened))
  {
  }

  /** A multi-path that closes with the string. */
  lemma {:induction false} RunOfItems(s: string, n: Child, whole: Skipped)
    requires s != "" && s[0] == '<' && Closed(s, 1, false) && whole == Summary(s, 1, false)
    requires Pieces(s, 1, false) != [] && Pieces(s, 1, false)[0].number == n
    requires n.value < HARDENED && 1 <= whole.count < 254 && whole.i + 1 == |s|
    ensures MultiPath(s, MULTI) == Some(Parser(0, [], BARE, false, true))
    ensures Parse(s, MULTI) ==
            Some(Parsed([ChildMeaning(n)], Features(true, whole.hardened, false, true, 0, whole.count + 1)))
  {
    var p := Parser(0, [], BARE, false, true);
    MultiIsPicked(s, MULTI, p);
    PickedFirst(p, Pieces(s, 1, false), whole);
    assert [] + [ChildMeaning(n)] == [ChildMeaning(n)];
    RunOfMulti(s, p, AfterChoice(p, |s|, n, whole.count + 1, whole.hardened));
  }

  lemma {:induction false} OtherItemsPieces(s: string, n: nat)
    requires s == "<" + Bracketed([Child(0, false), Child(n, false)], 'h')
    ensures s[0] == '<' && Closed(s, 1, false) && Summary(s, 1, false) == Skipped(|s| - 1, 1, false)
    ensures var ps := Pieces(s, 1, false);
            |ps| >= 2 && ps[0] == Piece(Child(0, false), true) && ps[1].number == Child(n, false)
  {
    var items := [Child(0, false), Child(n, false)];
    assert s[1..] == Bracketed(items, 'h') + "";
    BracketedCloses(s, 1, items, 'h', false);
    assert !AnyHardened(items);
    TwoPieces(s, 1, items, 'h', false);
  }

  /** The item that is asked for alone is checked to be below 2^31: `<0;4294967296>` is accepted
      with index 0 and rejected with index 1, though it has an item 1. */
  lemma {:induction false} OtherItemsUnchecked(s: string, n: nat)
    requires s == "<" + Bracketed([Child(0, false), Child(n, false)], 'h')
    ensures Parse(s, MULTI) == Some(Parsed([0], Features(true, false, false, true, 0, 2)))
    ensures Parse(s, MULTI.(multiIndex := 1)).Some? <==> n < HARDENED
  {
    OtherItemsPieces(s, n);
    RunOfItems(s, Child(0, false), Skipped(|s| - 1, 1, false));
    MultiIndexExactly(s, MULTI, 1);
  }

  lemma {:induction false} RunTogetherPieces(s: string)
    requires s == "<0h1;2>"
    ensures Closed(s, 1, false) && Summary(s, 1, false) == Skipped(6, 1, true)
    ensures Pieces(s, 1, false) != [] && Pieces(s, 1, false)[0] == Piece(Child(0, true), false)
  {
    assert s[1] == '0' && s[2] == 'h' && s[3] == '1' && s[4] == ';' && s[5] == '2' && s[6] == '>' && |s| == 7;
    assert DigitsEnd(s, 2) == 2 && DigitsEnd(s, 4) == 4 && DigitsEnd(s, 6) == 6;
    assert s[1..2] == "0" && NumberValue("0") == 0;
    assert Item(s, 5, false) == Some(Skipped(6, 1, false)) && SkipRest(s, 6, false) == Some(Skipped(6, 0, false));
    assert SkipRest(s, 4, false) == Some(Skipped(6, 1, false));
    assert Item(s, 3, false) == Some(Skipped(4, 1, false)) && SkipRest(s, 3, false) == Some(Skipped(6, 1, false));
    assert Item(s, 1, false) == Some(Skipped(3, 1, true));
  }

  /** The items after the one asked for need no semicolon between them: `<0h1;2>` counts two items
      and is accepted with index 0, but no semicolon ends its first item. */
  lemma {:induction false} RunTogether(s: string)
    requires s == "<0h1;2>"
    ensures Parse(s, MULTI) == Some(Parsed([HARDENED], Features(true, true, false, true, 0, 2)))
    ensures Parse(s, MULTI.(multiIndex := 1)) == None
  {
    RunTogetherPieces(s);
    RunOfItems(s, Child(0, true), Skipped(6, 1, true));
    MultiIndexExactly(s, MULTI, 1);
  }
}
