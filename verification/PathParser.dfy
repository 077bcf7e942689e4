/** The loops of `path_from_str_n` (src/bip32.c lines 89-240), proved to compute
    PathSyntax.Parse. */
module PathParser {
  import opened Common
  import opened PathSyntax

  /** Lines 138-139 and 201-202: over a run of digits. */
  method SkipDigits(s: string, i: nat) returns (j: nat)
    requires i <= |s|
    ensures j == DigitsEnd(s, i)
  {
    j := i;
    while j < |s| && IsDigit(s[j])
      invariant i <= j <= |s| && DigitsEnd(s, i) == DigitsEnd(s, j)
    {
      j := j + 1;
    }
  }

  lemma NumberSnoc(s: string, i: nat, j: nat)
    requires i <= j < |s| && AllDigits(s[i..j]) && IsDigit(s[j])
    ensures AllDigits(s[i..j + 1])
    ensures NumberValue(s[i..j + 1]) == 10 * NumberValue(s[i..j]) + (s[j] as int - '0' as int)
  {
    assert s[i..j + 1] == s[i..j] + [s[j]];
  }

  /** More digits never make a number smaller. */
  lemma {:induction false} NumberGrows(s: string, i: nat, j: nat, k: nat)
    requires i <= j <= k <= |s| && AllDigits(s[i..k])
    ensures AllDigits(s[i..j]) && NumberValue(s[i..j]) <= NumberValue(s[i..k])
    decreases k - j
  {
    assert s[i..j] == s[i..k][..j - i];
    if j < k {
      assert s[j] == s[i..k][j - i];
      NumberSnoc(s, i, j);
      NumberGrows(s, i, j + 1, k);
    }
  }

  /** Lines 152-157: a number, failing as soon as it is too large. */
  method ReadNumber(s: string, i: nat) returns (ok: bool, v: nat, j: nat)
    requires i <= |s|
    ensures ok <==> NumberValue(s[i..DigitsEnd(s, i)]) < HARDENED
    ensures ok ==> v == NumberValue(s[i..DigitsEnd(s, i)]) && j == DigitsEnd(s, i)
  {
    j, v := i, 0;
    while j < |s| && IsDigit(s[j])
      invariant i <= j <= |s| && AllDigits(s[i..j]) && v == NumberValue(s[i..j]) < HARDENED
    {
      NumberSnoc(s, i, j);
      v := v * 10 + (s[j] as int - '0' as int);
      if v >= HARDENED {
        DigitsEndBack(s, i, j + 1);
        NumberGrows(s, i, j + 1, DigitsEnd(s, i));
        return false, v, j;
      }
      j := j + 1;
    }
    DigitsEndBack(s, i, j);
    ok := true;
  }

  /** `is_hardened_indicator`, with the step over the mark that follows every call but one. */
  method SkipMark(s: string, i: nat, upper: bool, before: bool) returns (j: nat, hardened: bool)
    requires i <= |s|
    ensures j == AfterMark(s, i, upper) && hardened == (before || MarkAt(s, i, upper))
  {
    j, hardened := i, before;
    if i < |s| && IsMark(s[i], upper) {
      j, hardened := i + 1, true;
    }
  }

  /** The rest of a skipping loop whose first items are done. */
  function Prepend(i: nat, count: nat, hardened: bool, rest: Option<Skipped>): Option<Skipped> {
    match rest
    case None => None
    case Some(r) => Some(Skipped(r.i, count + r.count, hardened || r.hardened))
  }

  /** One more item done. */
  lemma SkipItemsNext(s: string, i: nat, n: nat, upper: bool, count: nat, hardened: bool)
    requires i < |s| && n > 0
    ensures var rest, x := Prepend(i, count, hardened, SkipItems(s, i, n, upper)), EndedItem(s, i, upper);
            if x.None? then rest == None
            else rest == Prepend(x.value.i, count + 1, hardened || x.value.hardened,
                                 SkipItems(s, x.value.i, n - 1, upper))
  {
  }

  lemma SkipItemsDone(s: string, i: nat, n: nat, upper: bool, count: nat, hardened: bool)
    requires i <= |s| && (i == |s| || n == 0)
    ensures Prepend(i, count, hardened, SkipItems(s, i, n, upper)) == Some(Skipped(i, count, hardened))
  {
  }

  lemma SkipRestNext(s: string, i: nat, upper: bool, count: nat, hardened: bool)
    requires i < |s| && s[i] != '>'
    ensures var rest := Prepend(i, count, hardened, SkipRest(s, i, upper));
            var x := Item(s, if s[i] == ';' then i + 1 else i, upper);
            if x.None? then rest == None
            else rest == Prepend(x.value.i, count + (if s[i] == ';' then 1 else 0), hardened || x.value.hardened,
                                 SkipRest(s, x.value.i, upper))
  {
  }

  /** Lines 137-143 and 200-206: the digits and the mark of an item. */
  method SkipItem(s: string, i: nat, upper: bool) returns (r: Option<Skipped>)
    requires i <= |s|
    ensures r == Item(s, i, upper)
  {
    var j := SkipDigits(s, i);
    if j == i {
      return None;
    }
    var k, hardened := SkipMark(s, j, upper, false);
    r := Some(Skipped(k, 1, hardened));
  }

  /** Lines 137-146. */
  method SkipEndedItem(s: string, i: nat, upper: bool) returns (r: Option<Skipped>)
    requires i <= |s|
    ensures r == EndedItem(s, i, upper)
  {
    r := SkipItem(s, i, upper);
    if r.None? || r.value.i == |s| || s[r.value.i] != ';' {
      return None;
    }
    r := Some(r.value.(i := r.value.i + 1));
  }

  /** Lines 136-148: the items before the chosen one. */
  method SkipMultiItems(s: string, from: nat, n: nat, upper: bool) returns (r: Option<Skipped>)
    requires from <= |s|
    ensures r == SkipItems(s, from, n, upper)
  {
    var i: nat, multi: nat, hardened := from, 0, false;
    ghost var left: nat := n;
    while i < |s| && multi < n
      invariant i <= |s| && multi <= n && left == n - multi
      invariant SkipItems(s, from, n, upper) == Prepend(i, multi, hardened, SkipItems(s, i, left, upper))
      decreases n - multi
    {
      SkipItemsNext(s, i, left, upper, multi, hardened);
      left := left - 1;
      var x := SkipEndedItem(s, i, upper);
      if x.None? {
        return None;
      }
      i, multi, hardened := x.value.i, multi + 1, hardened || x.value.hardened;
    }
    SkipItemsDone(s, i, left, upper, multi, hardened);
    r := Some(Skipped(i, multi, hardened));
  }

  /** Lines 195-207: the items after the chosen one. */
  method SkipRemaining(s: string, from: nat, upper: bool) returns (r: Option<Skipped>)
    requires from <= |s|
    ensures r == SkipRest(s, from, upper)
  {
    var i, count, hardened := from, 0, false;
    while i < |s| && s[i] != '>'
      invariant i <= |s|
      invariant SkipRest(s, from, upper) == Prepend(i, count, hardened, SkipRest(s, i, upper))
    {
      SkipRestNext(s, i, upper, count, hardened);
      if s[i] == ';' {
        i, count := i + 1, count + 1;
      }
      var x := SkipItem(s, i, upper);
      if x.None? {
        return None;
      }
      i, hardened := x.value.i, hardened || x.value.hardened;
    }
    r := Some(Skipped(i, count, hardened));
  }

  /** Lines 152-157 and 188-215 for a multi-path: the chosen item and the rest. */
  method StepChosen(s: string, o: Options, p: Parser, skipped: Skipped) returns (q: Option<Parser>)
    requires p.i < skipped.i <= |s|
    ensures q == Chosen(s, o, p, skipped)
  {
    var ok, v, j := ReadNumber(s, skipped.i);
    if !ok {
      return None;
    }
    var k, hardened := SkipMark(s, j, o.upper, false);
    var rest := SkipRemaining(s, k, o.upper);
    if rest.None? || rest.value.i == |s| {
      return None;
    }
    var n := skipped.count + 1 + rest.value.count;
    if n < 2 || n >= 255 {
      return None;
    }
    var features := p.features.(
      isHardened := p.features.isHardened || skipped.hardened || hardened || rest.value.hardened,
      isMulti := true, multiCount := n);
    q := Some(p.(i := rest.value.i + 1, path := p.path + [v + Hardening(hardened)], multiOk := false,
                 features := features));
  }

  /** Lines 129-151: a multi-path. */
  method StepMulti(s: string, o: Options, p: Parser) returns (q: Option<Parser>)
    requires p.i < |s|
    ensures q == Multi(s, o, p)
  {
    var i := p.i + 1;
    if i < |s| && !IsDigit(s[i]) {
      return None;
    }
    var skipped := SkipMultiItems(s, i, o.multiIndex, o.upper);
    if skipped.None? || (skipped.value.count < o.multiIndex && skipped.value.i == p.i + 1) {
      return None;
    }
    q := StepChosen(s, o, p, skipped.value);
  }

  /** Lines 152-191 and 217-218 for what is not a multi-path. */
  method StepOther(s: string, o: Options, p: Parser) returns (q: Option<Parser>)
    requires p.i < |s| && !(s[p.i] == '<' && p.multiOk)
    ensures q == Step(s, o, p)
  {
    var ok, v, i := ReadNumber(s, p.i);
    if !ok {
      return None;
    }
    var features, wildcardOk, isWildcard := p.features, p.wildcardOk, false;
    if i == p.i {
      if s[i] == '/' {
        if i > 0 && !IsDigit(s[i - 1]) {
          if IsMark(s[i - 1], o.upper) {
            features := features.(isHardened := true);
          } else if s[i - 1] != '*' && s[i - 1] != '>' {
            return None;
          }
        }
        i := i + 1;
        if i == |s| || s[i] == '/' {
          return None;
        }
        return Some(p.(i := i, features := features));
      }
      isWildcard := s[i] == '*';
      if !isWildcard || !wildcardOk {
        return None;
      }
      wildcardOk := false;
      features := features.(isWildcard := true, wildcardPos := |p.path|);
      if i > 0 && s[i - 1] != '/' {
        return None;
      }
      i := i + 1;
      v := o.childNum;
    }
    var k, hardened := SkipMark(s, i, o.upper, false);
    if isWildcard && k != |s| && s[k] != '/' {
      return None;
    }
    features := features.(isHardened := features.isHardened || hardened);
    q := Some(Parser(k, p.path + [v + Hardening(hardened)], features, wildcardOk, p.multiOk));
  }

  // ----- the whole string

  /** What has been written: as much of the path as the caller has room for. */
  predicate Written(out: seq<nat>, path: seq<nat>) {
    forall k :: 0 <= k < |path| && k < |out| ==> out[k] == path[k]
  }

  /** Lines 219-225: an iteration's element, if it read one. */
  method Store(out: array<nat>, ghost before: seq<nat>, written: nat, path: seq<nat>)
    requires written == |before| && before <= path && |path| <= written + 1 && Written(out[..], before)
    modifies out
    ensures Written(out[..], path)
  {
    if written < |path| && written < out.Length {
      out[written] := path[written];
    }
  }

  lemma StepGrows(s: string, o: Options, p: Parser)
    requires p.i < |s| && Step(s, o, p).Some?
    ensures p.path <= Step(s, o, p).value.path && |Step(s, o, p).value.path| <= |p.path| + 1
  {
  }

  /** Lines 124-226: the main loop. */
  method RunLoop(s: string, o: Options, start: Parser, out: array<nat>) returns (q: Option<Parser>)
    requires start.i <= |s| && start.path == []
    modifies out
    ensures q == Run(s, o, start)
    ensures q.Some? ==> Written(out[..], q.value.path)
  {
    var p := start;
    while p.i < |s|
      invariant p.i <= |s| && Run(s, o, start) == Run(s, o, p)
      invariant Written(out[..], p.path)
      decreases |s| - p.i
    {
      var next;
      if s[p.i] == '<' && p.multiOk {
        next := StepMulti(s, o, p);
      } else {
        next := StepOther(s, o, p);
      }
      if next.None? {
        return None;
      }
      StepGrows(s, o, p);
      Store(out, p.path, |p.path|, next.value.path);
      p := next.value;
    }
    q := Some(p);
  }

  const NO_FEATURES := Features(false, false, false, false, 0, 0)

  /** `path_from_str_n`. The result does not depend on the room given, as long as there is some. */
  method PathFromStr(s: string, o: Options, out: array<nat>) returns (status: Status, features: Features, written: nat)
    modifies out
    ensures if out.Length == 0 || Parse(s, o).None? then status == Invalid && features == NO_FEATURES && written == 0
            else
              var r := Parse(s, o).value;
              status == Ok && features == r.features && written == |r.path| && Written(out[..], r.path)
  {
    status, features, written := Invalid, NO_FEATURES, 0;
    if s == "" || !ValidOptions(o) || out.Length == 0 {
      return;
    }
    var i, isBare := 0, o.bare;
    if o.bare {
      if s[0] == '/' {
        return;
      }
    } else {
      if s[i] == 'm' || (o.upper && s[i] == 'M') {
        i := i + 1;
      }
      if i < |s| && s[i] == '/' {
        i := i + 1;
      }
      isBare := i == 0;
    }
    var p := Parser(i, [], NO_FEATURES.(isBare := isBare), o.wildcard, o.multipath);
    var q := RunLoop(s, o, p, out);
    if q.Some? && Accepted(o, q.value) {
      return Ok, q.value.features, |q.value.path|;
    }
  }
}
