/** Parsing of one cron field: comma-separated parts, each a wildcard, a range or a value,
    with an optional step. */
module CronField {
  import opened Wrappers
  import opened Decimal
  import opened Text

  // ----- What a part means -----

  /** The values `lo`, `lo + step`, ... up to `hi`. A single value is `Part(v, v, step)`. */
  datatype Part = Part(lo: int, hi: int, step: int) {
    predicate Denotes(v: int) {
      lo <= v <= hi && OnStep(lo, step, v)
    }
  }

  predicate OnStep(lo: int, step: int, v: int) {
    step > 0 && (v - lo) % step == 0
  }

  /** The grammar: a body without '/', optionally followed by '/' and a positive step. */
  ghost predicate Spells(text: string, min: int, max: int, p: Part) {
    exists k :: 0 <= k <= |text| && SpellsParts(text[..k], text[k..], min, max, p)
  }

  ghost predicate SpellsParts(body: string, tail: string, min: int, max: int, p: Part) {
    '/' !in body && SpellsBody(body, min, max, p) && SpellsStep(tail, p.step)
  }

  /** The body is '*', two integers around the first '-', or one integer. */
  ghost predicate SpellsBody(body: string, min: int, max: int, p: Part) {
    && min <= p.lo <= p.hi <= max
    && (|| (body == "*" && p.lo == min && p.hi == max)
        || (exists k :: 0 <= k < |body| && body[k] == '-' && SpellsRange(body[..k], body[k + 1..], p))
        || ('-' !in body && Atoi(body) == Some(p.lo) && p.hi == p.lo))
  }

  ghost predicate SpellsRange(start: string, end: string, p: Part) {
    '-' !in start && Atoi(start) == Some(p.lo) && Atoi(end) == Some(p.hi)
  }

  ghost predicate SpellsStep(tail: string, step: int) {
    || (tail == "" && step == 1)
    || (tail != "" && tail[0] == '/' && step > 0 && Atoi(tail[1..]) == Some(step))
  }

  function ReadBody(body: string, min: int, max: int, step: int): (r: Option<Part>)
    ensures r.Some? ==> r.value.step == step
  {
    if body == "*" then Some(Part(min, max, step))
    else
      var dash := Index(body, '-');
      if dash != -1 then
        var start, end := Atoi(body[..dash]), Atoi(body[dash + 1..]);
        if start.None? || end.None? then None
        else if start.value < min || end.value > max || start.value > end.value then None
        else Some(Part(start.value, end.value, step))
      else
        var val := Atoi(body);
        if val.None? || val.value < min || val.value > max then None
        else Some(Part(val.value, val.value, step))
  }

  function ReadPart(text: string, min: int, max: int): Option<Part> {
    var slash := Index(text, '/');
    if slash == -1 then ReadBody(text, min, max, 1)
    else
      var step := Atoi(text[slash + 1..]);
      if step.None? || step.value <= 0 then None else ReadBody(text[..slash], min, max, step.value)
  }

  ghost predicate PartDenotes(text: string, min: int, max: int, v: int) {
    ReadPart(text, min, max).Some? && ReadPart(text, min, max).value.Denotes(v)
  }

  lemma ReadBodyIsGrammar(body: string, min: int, max: int, p: Part)
    requires min <= max
    ensures ReadBody(body, min, max, p.step) == Some(p) <==> SpellsBody(body, min, max, p)
  {
    hide Index;
    var dash := Index(body, '-');
    if body == "*" {
      assert !IsDigit(body[0]);
    } else if dash != -1 {
      forall k | 0 <= k < |body| && body[k] == '-' && SpellsRange(body[..k], body[k + 1..], p)
        ensures k == dash
      {
        FirstIndex(body, '-', k);
      }
      assert SpellsBody(body, min, max, p)
        <==> min <= p.lo <= p.hi <= max && SpellsRange(body[..dash], body[dash + 1..], p);
    }
  }

  /** The reader accepts exactly the texts of the grammar, each with one meaning. */
  lemma ReadPartIsGrammar(text: string, min: int, max: int, p: Part)
    requires min <= max
    ensures ReadPart(text, min, max) == Some(p) <==> Spells(text, min, max, p)
  {
    hide Atoi, ReadBody, SpellsBody, Index;
    var slash := Index(text, '/');
    var cut := if slash == -1 then |text| else slash;
    ReadBodyIsGrammar(text[..cut], min, max, p);
    assert slash == -1 ==> text[..cut] == text;
    assert slash != -1 ==> text[cut..][1..] == text[slash + 1..];
    forall k | 0 <= k <= |text| && SpellsParts(text[..k], text[k..], min, max, p)
      ensures k == cut
    {
      if k < |text| {
        assert text[k..][0] == text[k];
        FirstIndex(text, '/', k);
      } else {
        assert text[..k] == text;
      }
    }
    assert Spells(text, min, max, p) <==> SpellsParts(text[..cut], text[cut..], min, max, p);
  }

  // ----- Lists of values -----

  ghost predicate StrictlyIncreasing(s: seq<int>) {
    forall i, j :: 0 <= i < j < |s| ==> s[i] < s[j]
  }

  ghost predicate Within(s: seq<int>, lo: int, hi: int) {
    forall i :: 0 <= i < |s| ==> lo <= s[i] <= hi
  }

  /** After a value on the step, the next one is a whole step away. */
  lemma NextOnStep(lo: int, step: int, i: int, v: int)
    requires OnStep(lo, step, i) && i <= v < i + step
    ensures OnStep(lo, step, v) <==> v == i
    ensures OnStep(lo, step, i + step)
  {
    var q := (i - lo) / step;
    RemainderIsUnique(v - lo, q, step, v - i);
    assert i + step - lo == (q + 1) * step;
    RemainderIsUnique(i + step - lo, q + 1, step, 0);
  }

  lemma RemainderIsUnique(x: int, q: int, d: int, r: int)
    requires d > 0 && 0 <= r < d && x == q * d + r
    ensures x % d == r
  {
    var k := x / d - q;
    assert k * d == r - x % d;
    assert k >= 1 ==> k * d >= d;
    assert k <= -1 ==> k * d <= -d;
  }

  /** The counting loop produces, in order, exactly the values the part denotes. */
  method StepValues(min: int, max: int, step: int) returns (result: seq<int>)
    requires step > 0
    ensures StrictlyIncreasing(result) && Within(result, min, max)
    ensures forall v :: v in result <==> Part(min, max, step).Denotes(v)
    ensures min <= max ==> result != []
  {
    result := [];
    var i := min;
    while i <= max
      invariant min <= i && OnStep(min, step, i)
      invariant StrictlyIncreasing(result) && Within(result, min, max) && Within(result, min, i - 1)
      invariant forall v :: v in result <==> min <= v <= max && v < i && OnStep(min, step, v)
      invariant i > min ==> result != []
      decreases max - i
    {
      forall v {:trigger OnStep(min, step, v)} | i <= v < i + step
        ensures OnStep(min, step, v) <==> v == i
      {
        NextOnStep(min, step, i, v);
      }
      NextOnStep(min, step, i, i);
      result := result + [i];
      i := i + step;
    }
  }

  method ParseFieldPart(text: string, min: int, max: int) returns (r: Result<seq<int>>)
    requires min <= max
    ensures r.Ok? <==> ReadPart(text, min, max).Some?
    ensures r.Ok? ==> r.value != [] && Within(r.value, min, max)
    ensures r.Ok? ==> forall v :: v in r.value <==> PartDenotes(text, min, max, v)
  {
    var part, step := text, 1;
    var slash := Index(text, '/');
    if slash != -1 {
      var parsed := Atoi(text[slash + 1..]);
      if parsed.None? || parsed.value <= 0 {
        return Err("invalid step");
      }
      step := parsed.value;
      part := text[..slash];
    }
    assert ReadPart(text, min, max) == ReadBody(part, min, max, step);
    r := ParseBody(part, min, max, step);
  }

  method ParseBody(part: string, min: int, max: int, step: int) returns (r: Result<seq<int>>)
    requires min <= max && step > 0
    ensures r.Ok? <==> ReadBody(part, min, max, step).Some?
    ensures r.Ok? ==> r.value != [] && Within(r.value, min, max)
    ensures r.Ok? ==> forall v :: v in r.value <==> ReadBody(part, min, max, step).value.Denotes(v)
  {
    hide Atoi;
    if part == "*" {
      var values := StepValues(min, max, step);
      return Ok(values);
    }
    var dash := Index(part, '-');
    if dash != -1 {
      var start := Atoi(part[..dash]);
      if start.None? {
        return Err("invalid range start");
      }
      var end := Atoi(part[dash + 1..]);
      if end.None? {
        return Err("invalid range end");
      }
      if start.value < min || end.value > max || start.value > end.value {
        return Err("range out of bounds");
      }
      var values := StepValues(start.value, end.value, step);
      return Ok(values);
    }
    var val := Atoi(part);
    if val.None? {
      return Err("invalid value");
    }
    if val.value < min || val.value > max {
      return Err("value out of bounds");
    }
    SingleValue(val.value, step);
    return Ok([val.value]);
  }

  lemma SingleValue(x: int, step: int)
    requires step > 0
    ensures forall v :: Part(x, x, step).Denotes(v) <==> v == x
  {
    assert OnStep(x, step, x);
  }

  // ----- Removing duplicates and sorting -----

  ghost predicate Distinct(s: seq<int>) {
    forall i, j :: 0 <= i < j < |s| ==> s[i] != s[j]
  }

  function Swap(s: seq<int>, i: nat, j: nat): seq<int>
    requires i < j < |s|
  {
    s[i := s[j]][j := s[i]]
  }

  /** The first `i` positions hold their final values. */
  ghost predicate SortedUpTo(s: seq<int>, i: nat) {
    forall j, k :: 0 <= j < i && j < k < |s| ==> s[j] <= s[k]
  }

  /** Position `i` holds the least value seen so far in its round. */
  ghost predicate LeastBefore(s: seq<int>, i: nat, j: nat) {
    i < |s| && forall k :: i < k < j && k < |s| ==> s[i] <= s[k]
  }

  lemma SwapAdvances(s: seq<int>, i: nat, j: nat)
    requires i < j < |s| && SortedUpTo(s, i) && LeastBefore(s, i, j) && s[i] > s[j]
    ensures multiset(Swap(s, i, j)) == multiset(s)
    ensures SortedUpTo(Swap(s, i, j), i) && LeastBefore(Swap(s, i, j), i, j + 1)
  {
  }

  /** One outer round of the exchange sort: the least value of the tail moves to position `i`. */
  method ExchangeRound(a: array<int>, i: nat)
    requires i < a.Length && SortedUpTo(a[..], i)
    modifies a
    ensures multiset(a[..]) == multiset(old(a[..]))
    ensures SortedUpTo(a[..], i + 1)
  {
    for j := i + 1 to a.Length
      invariant multiset(a[..]) == multiset(old(a[..]))
      invariant SortedUpTo(a[..], i) && LeastBefore(a[..], i, j)
    {
      ghost var s := a[..];
      if a[i] > a[j] {
        SwapAdvances(s, i, j);
        a[i], a[j] := a[j], a[i];
        assert a[..] == Swap(s, i, j);
      } else {
        assert LeastBefore(s, i, j + 1);
      }
      hide SortedUpTo, LeastBefore;
    }
  }

  method ExchangeSort(a: array<int>)
    modifies a
    ensures multiset(a[..]) == multiset(old(a[..]))
    ensures SortedUpTo(a[..], a.Length)
  {
    var i := 0;
    while i < a.Length - 1
      invariant 0 <= i <= a.Length
      invariant multiset(a[..]) == multiset(old(a[..]))
      invariant SortedUpTo(a[..], i)
    {
      ExchangeRound(a, i);
      i := i + 1;
    }
  }

  lemma {:induction false} DistinctCounts(s: seq<int>)
    ensures Distinct(s) <==> forall v :: multiset(s)[v] <= 1
  {
    if s != [] {
      var t, x := s[..|s| - 1], s[|s| - 1];
      assert s == t + [x];
      assert multiset(s) == multiset(t) + multiset{x};
      DistinctCounts(t);
      if Distinct(s) {
        assert x !in t;
      } else if forall v :: multiset(s)[v] <= 1 {
        assert multiset(s)[x] == multiset(t)[x] + 1;
        assert forall v :: multiset(t)[v] <= multiset(s)[v];
      }
    }
  }

  method UniqueSorted(values: seq<int>) returns (result: seq<int>)
    ensures StrictlyIncreasing(result)
    ensures forall v :: v in result <==> v in values
  {
    var seen: set<int> := {};
    var kept: seq<int> := [];
    for i := 0 to |values|
      invariant forall v :: v in seen <==> v in values[..i]
      invariant forall v :: v in kept <==> v in seen
      invariant Distinct(kept)
    {
      var v := values[i];
      assert values[..i + 1] == values[..i] + [v];
      if v !in seen {
        seen := seen + {v};
        kept := kept + [v];
      }
    }
    assert values[..|values|] == values;
    var a := new int[|kept|](i requires 0 <= i < |kept| => kept[i]);
    assert a[..] == kept;
    DistinctCounts(kept);
    ExchangeSort(a);
    result := a[..];
    DistinctCounts(result);
    forall v
      ensures v in result <==> v in values
    {
      assert v in result <==> v in multiset(result);
      assert v in kept <==> v in multiset(kept);
    }
  }

  // ----- A whole field -----

  ghost predicate SomeDenotes(parts: seq<string>, min: int, max: int, v: int) {
    exists k :: 0 <= k < |parts| && PartDenotes(parts[k], min, max, v)
  }

  ghost predicate AllReadable(parts: seq<string>, min: int, max: int) {
    forall k :: 0 <= k < |parts| ==> ReadPart(parts[k], min, max).Some?
  }

  /** Some comma-separated part of the field denotes `v`. */
  ghost predicate FieldDenotes(field: string, min: int, max: int, v: int) {
    SomeDenotes(Split(field, ','), min, max, v)
  }

  ghost predicate Readable(field: string, min: int, max: int) {
    AllReadable(Split(field, ','), min, max)
  }

  /** The list a parsed field holds: sorted, duplicate-free, in bounds, not empty. */
  ghost predicate ValueList(s: seq<int>, min: int, max: int) {
    s != [] && StrictlyIncreasing(s) && Within(s, min, max)
  }

  function Range(min: int, max: int): (s: seq<int>)
    ensures forall v :: v in s <==> min <= v <= max
    ensures StrictlyIncreasing(s) && Within(s, min, max)
    decreases max - min
  {
    if min > max then []
    else
      var rest := Range(min, max - 1);
      assert forall i :: 0 <= i < |rest| ==> rest[i] in rest;
      rest + [max]
  }

  method AllValues(min: int, max: int) returns (result: seq<int>)
    requires min <= max
    ensures result == Range(min, max)
  {
    result := [];
    for i := 0 to max - min + 1
      invariant result == Range(min, min + i - 1)
    {
      result := result + [min + i];
    }
  }

  lemma OneMorePart(parts: seq<string>, k: nat, min: int, max: int, v: int)
    requires k < |parts|
    ensures SomeDenotes(parts[..k + 1], min, max, v)
       <==> SomeDenotes(parts[..k], min, max, v) || PartDenotes(parts[k], min, max, v)
  {
    hide PartDenotes;
    var longer := parts[..k + 1];
    assert longer[..k] == parts[..k] && longer[k] == parts[k];
    forall j | 0 <= j < k
      ensures longer[j] == parts[..k][j]
    {
    }
  }

  lemma OneMoreList(parts: seq<string>, k: nat, min: int, max: int, result: seq<int>, values: seq<int>)
    requires k < |parts|
    requires forall v :: v in result <==> SomeDenotes(parts[..k], min, max, v)
    requires forall v :: v in values <==> PartDenotes(parts[k], min, max, v)
    ensures forall v :: v in result + values <==> SomeDenotes(parts[..k + 1], min, max, v)
  {
    forall v
      ensures v in result + values <==> SomeDenotes(parts[..k + 1], min, max, v)
    {
      OneMorePart(parts, k, min, max, v);
    }
  }

  /** The loop over the comma-separated parts. */
  method ParseParts(parts: seq<string>, min: int, max: int) returns (r: Result<seq<int>>)
    requires min <= max && parts != []
    ensures r.Ok? <==> AllReadable(parts, min, max)
    ensures r.Ok? ==> r.value != [] && Within(r.value, min, max)
    ensures r.Ok? ==> forall v :: v in r.value <==> SomeDenotes(parts, min, max, v)
  {
    hide ReadPart, PartDenotes;
    var result: seq<int> := [];
    var k := 0;
    while k < |parts|
      invariant 0 <= k <= |parts|
      invariant AllReadable(parts[..k], min, max)
      invariant Within(result, min, max) && (k > 0 ==> result != [])
      invariant forall v :: v in result <==> SomeDenotes(parts[..k], min, max, v)
    {
      var values := ParseFieldPart(parts[k], min, max);
      if values.Err? {
        return Err(values.error);
      }
      OneMoreList(parts, k, min, max, result, values.value);
      assert parts[..k + 1] == parts[..k] + [parts[k]];
      result := result + values.value;
      k := k + 1;
    }
    assert parts[..k] == parts;
    return Ok(result);
  }

  /** Parsing succeeds exactly when every part can be read, and then the list holds exactly
      the values some part denotes. */
  method ParseField(field: string, min: int, max: int) returns (r: Result<seq<int>>)
    requires min <= max
    ensures r.Ok? <==> Readable(field, min, max)
    ensures r.Ok? ==> ValueList(r.value, min, max)
    ensures r.Ok? ==> forall v :: v in r.value <==> FieldDenotes(field, min, max, v)
  {
    if field == "*" {
      var values := AllValues(min, max);
      WildcardField(min, max);
      assert min in values;
      return Ok(values);
    }
    var parsed := ParseParts(Split(field, ','), min, max);
    if parsed.Err? {
      return Err(parsed.error);
    }
    var sorted := UniqueSorted(parsed.value);
    assert parsed.value[0] in parsed.value;
    assert forall i :: 0 <= i < |sorted| ==> sorted[i] in parsed.value;
    return Ok(sorted);
  }

  /** A field that is one number in range holds just that number. */
  lemma NumberField(field: string, min: int, max: int)
    requires AllDigits(field) && Atoi(field).Some? && min <= Atoi(field).value <= max
    ensures Readable(field, min, max)
    ensures forall v :: FieldDenotes(field, min, max, v) <==> v == Atoi(field).value
  {
    hide Atoi;
    assert forall c :: c in field ==> IsDigit(c);
    var parts := Split(field, ',');
    assert parts == [field];
    var n := Atoi(field).value;
    assert ReadPart(field, min, max) == Some(Part(n, n, 1));
    SingleValue(n, 1);
    forall v
      ensures FieldDenotes(field, min, max, v) <==> v == n
    {
      assert FieldDenotes(field, min, max, v) <==> PartDenotes(parts[0], min, max, v);
    }
  }

  lemma WildcardField(min: int, max: int)
    requires min <= max
    ensures Readable("*", min, max)
    ensures forall v :: FieldDenotes("*", min, max, v) <==> min <= v <= max
  {
    var parts := Split("*", ',');
    assert parts == ["*"];
    assert Index("*", '/') == -1;
    assert ReadPart(parts[0], min, max) == Some(Part(min, max, 1));
    forall v
      ensures FieldDenotes("*", min, max, v) <==> min <= v <= max
    {
      assert FieldDenotes("*", min, max, v) <==> PartDenotes(parts[0], min, max, v);
      assert OnStep(min, 1, v);
    }
  }

  lemma {:induction false} SortedValueBounds(s: seq<int>, lo: int, hi: int, i: nat)
    requires StrictlyIncreasing(s) && Within(s, lo, hi) && i < |s|
    ensures lo + i <= s[i] <= hi - (|s| - 1 - i)
    decreases i
  {
    if i > 0 {
      SortedValueBounds(s, lo, hi, i - 1);
    }
    SortedUpperBound(s, lo, hi, i);
  }

  lemma {:induction false} SortedUpperBound(s: seq<int>, lo: int, hi: int, i: nat)
    requires StrictlyIncreasing(s) && Within(s, lo, hi) && i < |s|
    ensures s[i] <= hi - (|s| - 1 - i)
    decreases |s| - i
  {
    if i < |s| - 1 {
      SortedUpperBound(s, lo, hi, i + 1);
    }
  }

  /** A value list is as long as its range exactly when it holds every value of the range,
      so the length tests 31 and 7 mean "every day allowed". */
  lemma FullLengthMeansAll(s: seq<int>, lo: int, hi: int)
    requires StrictlyIncreasing(s) && Within(s, lo, hi) && lo <= hi
    ensures |s| == hi - lo + 1 <==> forall v :: lo <= v <= hi ==> v in s
  {
    if |s| == hi - lo + 1 {
      forall v | lo <= v <= hi
        ensures v in s
      {
        SortedValueBounds(s, lo, hi, v - lo);
      }
    }
    if forall v :: lo <= v <= hi ==> v in s {
      RangeFits(s, lo, hi, hi);
      SortedValueBounds(s, lo, hi, 0);
    }
  }

  lemma {:induction false} RangeFits(s: seq<int>, lo: int, hi: int, v: int)
    requires StrictlyIncreasing(s) && Within(s, lo, hi) && lo <= v <= hi
    requires forall w :: lo <= w <= hi ==> w in s
    ensures v - lo < |s| && s[v - lo] == v
    decreases v - lo
  {
    assert v in s;
    var i :| 0 <= i < |s| && s[i] == v;
    SortedValueBounds(s, lo, hi, i);
    if lo < v {
      RangeFits(s, lo, hi, v - 1);
      assert i >= v - lo;
    }
  }
}
