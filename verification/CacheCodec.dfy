/** The serialized form of a cached HTTP response: a status line, header lines, an empty line and the
    body. Bytes are characters; a string is a sequence of bytes. */
module CacheCodec {
  import opened Wrappers
  import opened Decimal
  import opened Text

  type Headers = map<string, seq<string>>

  datatype Entry = Entry(status: int, headers: Headers, body: string)

  // ----- Canonical header keys -----

  predicate Lowercase(c: char) {
    'a' <= c <= 'z'
  }

  predicate Uppercase(c: char) {
    'A' <= c <= 'Z'
  }

  /** A byte that may occur in a header field name. */
  predicate TokenByte(c: char) {
    Lowercase(c) || Uppercase(c) || IsDigit(c) || c in "!#$%&'*+-.^_`|~"
  }

  /** Upper case at the start and after a hyphen, lower case elsewhere. */
  function Capital(c: char, upper: bool): char {
    if upper && Lowercase(c) then c - 'a' + 'A'
    else if !upper && Uppercase(c) then c - 'A' + 'a'
    else c
  }

  predicate StartsWord(s: string, i: nat)
    requires i < |s|
  {
    i == 0 || s[i - 1] == '-'
  }

  predicate AllTokenBytes(s: string) {
    forall i :: 0 <= i < |s| ==> TokenByte(s[i])
  }

  /** `textproto.CanonicalMIMEHeaderKey`: a key with any other byte is left alone. */
  function Canonical(s: string): (r: string)
    ensures |r| == |s|
  {
    if AllTokenBytes(s) then seq(|s|, i requires 0 <= i < |s| => Capital(s[i], StartsWord(s, i))) else s
  }

  lemma CapitalFacts(c: char, upper: bool)
    ensures Capital(Capital(c, upper), upper) == Capital(c, upper)
    ensures Capital(c, upper) == '-' <==> c == '-'
    ensures TokenByte(c) ==> TokenByte(Capital(c, upper))
    ensures c in {':', '\n'} ==> !TokenByte(c)
  {
  }

  lemma CanonicalByte(s: string, i: nat)
    requires AllTokenBytes(s) && i < |s|
    ensures var r := Canonical(s);
            && TokenByte(r[i]) && (StartsWord(r, i) <==> StartsWord(s, i))
            && Capital(r[i], StartsWord(s, i)) == r[i]
  {
    hide Capital, TokenByte;
    CapitalFacts(s[i], StartsWord(s, i));
    if i > 0 {
      CapitalFacts(s[i - 1], StartsWord(s, i - 1));
      assert Canonical(s)[i - 1] == Capital(s[i - 1], StartsWord(s, i - 1));
    }
  }

  /** Making a key canonical twice changes nothing more. */
  lemma CanonicalIsStable(s: string)
    ensures Canonical(Canonical(s)) == Canonical(s)
  {
    if AllTokenBytes(s) {
      hide Capital, TokenByte, StartsWord;
      forall i | 0 <= i < |s|
        ensures TokenByte(Canonical(s)[i])
                && Capital(Canonical(s)[i], StartsWord(Canonical(s), i)) == Canonical(s)[i]
      {
        CanonicalByte(s, i);
      }
    }
  }

  /** The bytes that may occur are the visible ones that are not delimiters. */
  lemma TokenBytes(c: char)
    ensures TokenByte(c) <==> '!' <= c <= '~' && c !in "\"(),/:;<=>?@[\\]{}"
  {
  }

  /** A key is canonical if and only if it holds other bytes, or no word of it starts with a small letter and
      there are no capital letters elsewhere; and nothing but the case of letters is ever changed. */
  lemma CanonicalExactly(s: string)
    ensures Canonical(s) == s <==> || !AllTokenBytes(s)
                                   || forall i :: 0 <= i < |s| ==>
                                        if i == 0 || s[i - 1] == '-' then !('a' <= s[i] <= 'z')
                                        else !('A' <= s[i] <= 'Z')
    ensures AllTokenBytes(s) ==> Lower(Canonical(s)) == Lower(s)
  {
    var r := Canonical(s);
    if AllTokenBytes(s) {
      forall i | 0 <= i < |s|
        ensures r[i] == s[i] <==> if i == 0 || s[i - 1] == '-' then !('a' <= s[i] <= 'z') else !('A' <= s[i] <= 'Z')
        ensures Lower(r)[i] == Lower(s)[i]
      {
        CapitalCase(s[i], StartsWord(s, i));
      }
      hide Capital, TokenByte;
    }
  }

  lemma CapitalCase(c: char, upper: bool)
    ensures Capital(c, upper) == c <==> if upper then !('a' <= c <= 'z') else !('A' <= c <= 'Z')
    ensures LowerChar(Capital(c, upper)) == LowerChar(c)
  {
  }

  predicate PlainKey(key: string) {
    ':' !in key && '\n' !in key
  }

  lemma CanonicalIsPlain(s: string)
    requires PlainKey(s)
    ensures PlainKey(Canonical(s))
  {
    var r := Canonical(s);
    if AllTokenBytes(s) {
      forall i | 0 <= i < |r|
        ensures r[i] != ':' && r[i] != '\n'
      {
        CapitalFacts(s[i], StartsWord(s, i));
        CapitalFacts(':', true);
        CapitalFacts('\n', true);
      }
    }
  }

  // ----- The codec -----

  function Line(key: string, value: string): string {
    key + ":" + value + "\n"
  }

  function ValueLines(key: string, values: seq<string>): string {
    if values == [] then "" else Line(key, values[0]) + ValueLines(key, values[1..])
  }

  function HeaderLines(h: Headers, order: seq<string>): string
    requires forall k :: k in order ==> k in h
  {
    if order == [] then "" else ValueLines(order[0], h[order[0]]) + HeaderLines(h, order[1..])
  }

  /** A way to range over the keys of the map. */
  ghost predicate Ranges(order: seq<string>, h: Headers) {
    && (forall k :: k in order <==> k in h)
    && forall i, j :: 0 <= i < j < |order| ==> order[i] != order[j]
  }

  function Encoded(e: Entry, order: seq<string>): string
    requires forall k :: k in order ==> k in e.headers
  {
    Itoa(e.status) + "\n" + (HeaderLines(e.headers, order) + ("\n" + e.body))
  }

  function ValuesOf(h: Headers, key: string): seq<string> {
    if key in h then h[key] else []
  }

  /** `Header.Add`. */
  function Add(h: Headers, key: string, value: string): Headers {
    h[Canonical(key) := ValuesOf(h, Canonical(key)) + [value]]
  }

  datatype Parsed = Parsed(headers: Headers, body: string)

  /** The header loop, with the headers collected so far and the data still to read. */
  function ReadHeaders(h: Headers, data: string): Parsed
    decreases |data|
  {
    var idx := Index(data, '\n');
    if idx == -1 then Parsed(h, data)
    else
      var line, rest := data[..idx], data[idx + 1..];
      if line == "" then Parsed(h, rest)
      else
        var colon := Index(line, ':');
        if colon == -1 then ReadHeaders(h, rest)
        else ReadHeaders(Add(h, line[..colon], line[colon + 1..]), rest)
  }

  function Decoded(data: string): Result<Entry> {
    var idx := Index(data, '\n');
    if idx == -1 then Err("not found")
    else
      var status := Atoi(data[..idx]);
      if status.None? then Err("invalid status")
      else var p := ReadHeaders(map[], data[idx + 1..]); Ok(Entry(status.value, p.headers, p.body))
  }

  method EncodeCacheEntry(e: Entry) returns (data: string)
    ensures exists order :: Ranges(order, e.headers) && data == Encoded(e, order)
  {
    hide HeaderLines, ValueLines, Itoa;
    data := Itoa(e.status) + "\n";
    ghost var order: seq<string> := [];
    ghost var lines := "";
    NoLines(e.headers);
    var keys := e.headers.Keys;
    while keys != {}
      invariant keys <= e.headers.Keys
      invariant forall k :: k in order <==> k in e.headers && k !in keys
      invariant forall i, j :: 0 <= i < j < |order| ==> order[i] != order[j]
      invariant lines == HeaderLines(e.headers, order) && data == Itoa(e.status) + "\n" + lines
      decreases |keys|
    {
      var key :| key in keys;
      keys := keys - {key};
      HeaderLinesNext(e.headers, order, key);
      data := WriteValues(data, key, e.headers[key]);
      order := order + [key];
      lines := HeaderLines(e.headers, order);
    }
    data := data + "\n" + e.body;
    assert Ranges(order, e.headers) && data == Encoded(e, order);
  }

  lemma NoLines(h: Headers)
    ensures HeaderLines(h, []) == ""
  {
  }

  /** The inner loop over the values of one key. */
  method WriteValues(buf: string, key: string, values: seq<string>) returns (data: string)
    ensures data == buf + ValueLines(key, values)
  {
    data := buf;
    for i := 0 to |values|
      invariant data == buf + ValueLines(key, values[..i])
    {
      ValueLinesNext(key, values[..i], values[i]);
      assert values[..i + 1] == values[..i] + [values[i]];
      data := data + key + ":" + values[i] + "\n";
    }
    assert values[..|values|] == values;
  }

  lemma {:induction false} ValueLinesNext(key: string, values: seq<string>, v: string)
    ensures ValueLines(key, values + [v]) == ValueLines(key, values) + Line(key, v)
  {
    hide Line;
    if values == [] {
      assert values + [v] == [v];
      assert [v][1..] == [] && ValueLines(key, []) == "";
    } else {
      ValueLinesNext(key, values[1..], v);
      assert (values + [v])[1..] == values[1..] + [v];
    }
  }

  lemma {:induction false} HeaderLinesNext(h: Headers, order: seq<string>, key: string)
    requires key in h && forall k :: k in order ==> k in h
    ensures forall k :: k in order + [key] ==> k in h
    ensures HeaderLines(h, order + [key]) == HeaderLines(h, order) + ValueLines(key, h[key])
  {
    hide ValueLines;
    if order == [] {
      assert order + [key] == [key];
      assert [key][1..] == [] && HeaderLines(h, []) == "";
    } else {
      HeaderLinesNext(h, order[1..], key);
      assert (order + [key])[1..] == order[1..] + [key];
    }
  }

  method DecodeCacheEntry(input: string) returns (r: Result<Entry>)
    ensures r == Decoded(input)
  {
    var idx := Index(input, '\n');
    if idx == -1 {
      return Err("not found");
    }
    var status := Atoi(input[..idx]);
    if status.None? {
      return Err("invalid status");
    }
    var data, headers: Headers := input[idx + 1..], map[];
    ghost var goal := ReadHeaders(headers, data);
    while true
      invariant ReadHeaders(headers, data) == goal
      decreases |data|
    {
      idx := Index(data, '\n');
      if idx == -1 {
        break;
      }
      var line := data[..idx];
      var rest := data[idx + 1..];
      if line == "" {
        data := rest;
        break;
      }
      var colon := Index(line, ':');
      if colon != -1 {
        headers := Add(headers, line[..colon], line[colon + 1..]);
      }
      data := rest;
    }
    return Ok(Entry(status.value, headers, data));
  }

  // ----- Decoding undoes encoding -----

  predicate FaithfulKey(h: Headers, key: string)
    requires key in h
  {
    Canonical(key) == key && PlainKey(key) && h[key] != [] && forall v :: v in h[key] ==> '\n' !in v
  }

  /** Canonical keys without colon or newline, each with at least one value, and values without newline. */
  predicate Faithful(h: Headers) {
    forall key :: key in h ==> FaithfulKey(h, key)
  }

  lemma ReadLine(h: Headers, key: string, v: string, rest: string)
    requires PlainKey(key) && Canonical(key) == key && '\n' !in v
    ensures ReadHeaders(h, key + ":" + v + "\n" + rest) == ReadHeaders(h[key := ValuesOf(h, key) + [v]], rest)
  {
    hide Canonical;
    var line := key + ":" + v;
    var data := line + "\n" + rest;
    assert data == key + ":" + v + "\n" + rest;
    assert data[..|line|] == line && data[|line| + 1..] == rest;
    FirstIndex(data, '\n', |line|);
    assert line[..|key|] == key && line[|key| + 1..] == v;
    FirstIndex(line, ':', |key|);
  }

  lemma {:induction false} ReadValues(h: Headers, key: string, values: seq<string>, rest: string)
    requires PlainKey(key) && Canonical(key) == key && forall v :: v in values ==> '\n' !in v
    ensures ReadHeaders(h, ValueLines(key, values) + rest)
         == ReadHeaders(if values == [] then h else h[key := ValuesOf(h, key) + values], rest)
    decreases values
  {
    hide Canonical, PlainKey, ReadHeaders;
    if values == [] {
      assert ValueLines(key, values) + rest == rest;
    } else {
      var more := ValueLines(key, values[1..]) + rest;
      var g := h[key := ValuesOf(h, key) + [values[0]]];
      assert ValueLines(key, values) + rest == key + ":" + values[0] + "\n" + more;
      ReadLine(h, key, values[0], more);
      ReadValues(g, key, values[1..], rest);
      if values[1..] == [] {
        assert values == [values[0]];
      } else {
        assert ValuesOf(h, key) + [values[0]] + values[1..] == ValuesOf(h, key) + values;
        assert g[key := ValuesOf(h, key) + values] == h[key := ValuesOf(h, key) + values];
      }
    }
  }

  ghost function Part(h: Headers, order: seq<string>): Headers
    requires forall k :: k in order ==> k in h
  {
    map k | k in order :: h[k]
  }

  lemma {:induction false} ReadAll(h: Headers, got: Headers, order: seq<string>, rest: string)
    requires Faithful(h) && (forall k :: k in order ==> k in h && k !in got)
    requires forall i, j :: 0 <= i < j < |order| ==> order[i] != order[j]
    ensures ReadHeaders(got, HeaderLines(h, order) + rest) == ReadHeaders(got + Part(h, order), rest)
    decreases order
  {
    hide Canonical, PlainKey, ReadHeaders, ValueLines;
    if order == [] {
      assert HeaderLines(h, order) + rest == rest;
      assert got + Part(h, order) == got;
    } else {
      var key, tail := order[0], order[1..];
      var more := HeaderLines(h, tail) + rest;
      assert FaithfulKey(h, key);
      assert HeaderLines(h, order) + rest == ValueLines(key, h[key]) + more;
      ReadValues(got, key, h[key], more);
      assert ValuesOf(got, key) + h[key] == h[key];
      ReadAll(h, got[key := h[key]], tail, rest);
      PartNext(h, got, order);
    }
  }

  lemma PartNext(h: Headers, got: Headers, order: seq<string>)
    requires order != [] && forall k :: k in order ==> k in h
    ensures got[order[0] := h[order[0]]] + Part(h, order[1..]) == got + Part(h, order)
  {
    assert order == [order[0]] + order[1..];
  }

  /** The empty line ends the headers. */
  lemma ReadBody(h: Headers, data: string)
    requires data != "" && data[0] == '\n'
    ensures ReadHeaders(h, data) == Parsed(h, data[1..])
  {
    FirstIndex(data, '\n', 0);
    assert data[..0] == "";
  }

  /** Whatever is read has faithful headers. */
  lemma {:induction false} ReadIsFaithful(h: Headers, data: string)
    requires Faithful(h)
    ensures Faithful(ReadHeaders(h, data).headers)
    decreases |data|
  {
    hide Canonical, Index, ReadHeaders, Faithful, Add;
    var idx := Index(data, '\n');
    ReadNext(h, data);
    if idx != -1 && idx != 0 {
      var line, rest := data[..idx], data[idx + 1..];
      var colon := Index(line, ':');
      if colon == -1 {
        ReadIsFaithful(h, rest);
      } else {
        KeyAndValue(line, colon, data, idx);
        AddIsFaithful(h, line[..colon], line[colon + 1..]);
        ReadIsFaithful(Add(h, line[..colon], line[colon + 1..]), rest);
      }
    }
  }

  lemma ReadNext(h: Headers, data: string)
    ensures var idx := Index(data, '\n');
            ReadHeaders(h, data) ==
              if idx == -1 then Parsed(h, data)
              else if idx == 0 then Parsed(h, data[1..])
              else
                var line, rest := data[..idx], data[idx + 1..];
                var colon := Index(line, ':');
                if colon == -1 then ReadHeaders(h, rest)
                else ReadHeaders(Add(h, line[..colon], line[colon + 1..]), rest)
  {
    hide Canonical, Add;
  }

  lemma KeyAndValue(line: string, colon: nat, data: string, idx: nat)
    requires colon == Index(line, ':') && idx == Index(data, '\n') && line == data[..idx]
    ensures PlainKey(line[..colon]) && '\n' !in line[colon + 1..]
  {
    hide Index;
    assert forall c :: c in line[..colon] || c in line[colon + 1..] ==> c in line;
  }

  lemma AddIsFaithful(h: Headers, key: string, v: string)
    requires Faithful(h) && PlainKey(key) && '\n' !in v
    ensures Faithful(Add(h, key, v))
  {
    hide Canonical, PlainKey;
    CanonicalIsStable(key);
    CanonicalIsPlain(key);
    var g := Add(h, key, v);
    forall k | k in g
      ensures FaithfulKey(g, k)
    {
      if k in h {
        assert FaithfulKey(h, k);
      }
    }
  }

  /** Decoding an encoded entry gives it back, for any order of the headers, if and only if its headers
      are faithful. */
  lemma RoundTripExactly(e: Entry, order: seq<string>)
    requires MIN_INT <= e.status <= MAX_INT && Ranges(order, e.headers)
    ensures Decoded(Encoded(e, order)) == Ok(e) <==> Faithful(e.headers)
  {
    hide ReadHeaders, HeaderLines, Faithful, Atoi, Itoa;
    var head, tail := Itoa(e.status), HeaderLines(e.headers, order) + ("\n" + e.body);
    var data := Encoded(e, order);
    ItoaChars(e.status);
    AtoiItoa(e.status);
    assert data == head + "\n" + tail;
    assert data[..|head|] == head && data[|head| + 1..] == tail;
    FirstIndex(data, '\n', |head|);
    NoHeaders();
    ReadIsFaithful(map[], tail);
    if Faithful(e.headers) {
      ReadAll(e.headers, map[], order, "\n" + e.body);
      assert map[] + Part(e.headers, order) == e.headers;
      var last := "\n" + e.body;
      assert last[1..] == e.body;
      ReadBody(e.headers, last);
    }
  }

  /** What is refused: data without a first line, or with one that is not a number. */
  lemma RefusedExactly(data: string)
    ensures Decoded(data).Err? <==> '\n' !in data || Atoi(data[..Index(data, '\n')]).None?
  {
  }

  /** A line without a colon is skipped, and data that ends among the headers leaves the rest as the body. */
  lemma OddLines(h: Headers, line: string, rest: string)
    requires line != "" && '\n' !in line
    ensures ':' !in line ==> ReadHeaders(h, line + "\n" + rest) == ReadHeaders(h, rest)
    ensures ReadHeaders(h, line) == Parsed(h, line)
  {
    var data := line + "\n" + rest;
    assert data[..|line|] == line && data[|line| + 1..] == rest;
    FirstIndex(data, '\n', |line|);
  }

  /** The format, by an example. */
  lemma KnownEntry()
    ensures Encoded(Entry(200, map["X-A" := ["b", "c"]], "d"), ["X-A"]) == "200\nX-A:b\nX-A:c\n\nd"
  {
    var h := map["X-A" := ["b", "c"]];
    assert ["X-A"][1..] == [] && HeaderLines(h, []) == "";
    assert ["b", "c"][1..] == ["c"] && ["c"][1..] == [];
    assert ValueLines("X-A", []) == "";
    assert ValueLines("X-A", ["c"]) == "X-A:c\n";
    assert ValueLines("X-A", ["b", "c"]) == "X-A:b\nX-A:c\n";
    KnownStatus();
  }

  lemma KnownStatus()
    ensures Itoa(200) == "200"
  {
    assert Digits(2) == "2" && Digits(20) == "20";
  }

  lemma NoHeaders()
    ensures Faithful(map[])
  {
  }
}
