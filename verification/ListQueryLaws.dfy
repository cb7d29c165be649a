/**
 Laws of the query parser: exactly what it accepts, what it reports otherwise,
 that it reads back what the documented format prints, and that nothing outside
 the allow-lists gets past it.
 */
module ListQueryLaws {
  import opened Wrappers
  import opened Text
  import opened Listing
  import opened ListQuery

  // ------------------------------------------------------------------ grammar

  function PowerOfTen(n: nat): nat {
    if n == 0 then 1 else 10 * PowerOfTen(n - 1)
  }

  /** The first `k` digits, each times the power of ten of its position, summed up. */
  function Positional(s: string, k: nat): int
    requires k <= |s|
  {
    if k == 0 then 0 else Positional(s, k - 1) + (s[k - 1] as int - '0' as int) * PowerOfTen(|s| - k)
  }

  /** A further digit shifts the others by one position. */
  lemma {:induction false} PositionalShift(s: string, k: nat)
    requires s != "" && k < |s|
    ensures Positional(s, k) == 10 * Positional(s[..|s| - 1], k)
  {
    if k == 0 {
    } else {
      PositionalShift(s, k - 1);
      assert PowerOfTen(|s| - k) == 10 * PowerOfTen(|s| - 1 - k);
    }
  }

  lemma {:induction false} DecimalIsPositional(s: string)
    requires AllDigits(s)
    ensures Decimal(s) == Positional(s, |s|)
  {
    if s == "" {
    } else {
      var last := |s| - 1;
      assert s[last] in s;
      DecimalIsPositional(s[..last]);
      PositionalShift(s, last);
    }
  }

  /** An optional plus sign and decimal digits, of a value from 1 to the largest 64-bit integer. */
  ghost predicate IsNumeral(v: string, n: int, sign: string, digits: string) {
    && (sign == "" || sign == "+") && v == sign + digits
    && digits != "" && (forall i | 0 <= i < |digits| :: '0' <= digits[i] <= '9')
    && Positional(digits, |digits|) == n
    && 1 <= n <= 0x7FFF_FFFF_FFFF_FFFF
  }

  ghost predicate IsPositiveNumeral(v: string, n: int) {
    exists sign, digits :: IsNumeral(v, n, sign, digits)
  }

  lemma DigitsByPosition(s: string)
    ensures AllDigits(s) <==> forall i | 0 <= i < |s| :: '0' <= s[i] <= '9'
  {
    if AllDigits(s) {
      forall i | 0 <= i < |s| ensures '0' <= s[i] <= '9' {
        assert s[i] in s && IsDigit(s[i]);
      }
    }
  }

  lemma AcceptedIsNumeral(v: string, n: int)
    requires Atoi(v) == Some(n) && n >= 1
    ensures IsPositiveNumeral(v, n)
  {
    var sign := if HasSign(v) then v[..1] else "";
    DigitsByPosition(Digits(v));
    DecimalIsPositional(Digits(v));
    assert v[0] != '-';
    assert IsNumeral(v, n, sign, Digits(v));
  }

  lemma NumeralIsAccepted(v: string, n: int)
    requires IsPositiveNumeral(v, n)
    ensures Atoi(v) == Some(n) && n >= 1
  {
    var sign, digits :| IsNumeral(v, n, sign, digits);
    assert Digits(v) == digits;
    DigitsByPosition(digits);
    DecimalIsPositional(digits);
  }

  lemma AtoiPositiveIff(v: string, n: int)
    ensures IsPositiveNumeral(v, n) <==> Atoi(v) == Some(n) && n >= 1
  {
    if IsPositiveNumeral(v, n) {
      NumeralIsAccepted(v, n);
    } else if Atoi(v) == Some(n) && n >= 1 {
      AcceptedIsNumeral(v, n);
    }
  }

  /** The same letter in either ASCII case. */
  predicate SameLetter(c: char, upper: char) {
    c == upper || ('A' <= upper <= 'Z' && c == upper - 'A' + 'a')
  }

  /** Letter for letter, in either ASCII case; a long s also passes for an S. */
  predicate Spells(text: string, direction: string) {
    && |text| == |direction|
    && forall i | 0 <= i < |text| ::
         SameLetter(text[i], direction[i]) || (direction[i] == 'S' && text[i] == '\U{17F}')
  }

  lemma ToUpperIffSpells(text: string, direction: string)
    requires direction == SORT_ASC || direction == SORT_DESC
    ensures ToUpper(text) == direction <==> Spells(text, direction)
  {
    assert forall i | 0 <= i < |direction| :: direction[i] in "ASCDE";
  }

  /** Split at the first comma. */
  predicate IsSplit(sv: string, head: string, tail: string) {
    sv == head + "," + tail && ',' !in head
  }

  /** An allowed field, then a direction, white space around either. */
  predicate AreParts(head: string, tail: string, allowed: seq<string>, spec: SortSpec) {
    && TrimSpace(head) == spec.field && spec.field in allowed
    && (spec.direction == "ASC" || spec.direction == "DESC")
    && Spells(TrimSpace(tail), spec.direction)
  }

  ghost predicate IsSort(sv: string, allowed: seq<string>, spec: SortSpec) {
    exists head, tail :: IsSplit(sv, head, tail) && AreParts(head, tail, allowed, spec)
  }

  lemma ParseSortJoined(sv: string, head: string, tail: string, allowed: seq<string>)
    requires IsSplit(sv, head, tail)
    ensures ParseSort(sv, allowed) == ParseParts(head, tail, allowed)
  {
    IndexOfJoined(head, ',', tail);
    assert sv[..|head|] == head && sv[|head| + 1..] == tail;
  }

  lemma ParsePartsIff(head: string, tail: string, allowed: seq<string>, spec: SortSpec)
    ensures ParseParts(head, tail, allowed) == Ok(spec) <==> AreParts(head, tail, allowed, spec)
  {
    if spec.direction == SORT_ASC || spec.direction == SORT_DESC {
      ToUpperIffSpells(TrimSpace(tail), spec.direction);
    }
  }

  lemma SplitExistsIff(sv: string)
    ensures ',' in sv <==> IndexOf(sv, ',') < |sv|
    ensures ',' in sv ==> IsSplit(sv, sv[..IndexOf(sv, ',')], sv[IndexOf(sv, ',') + 1..])
  {
    var i := IndexOf(sv, ',');
    if i < |sv| {
      SplitAt(sv, i);
    } else {
      assert sv[..i] == sv;
    }
  }

  lemma ParseSortIff(sv: string, allowed: seq<string>, spec: SortSpec)
    ensures ParseSort(sv, allowed) == Ok(spec) <==> IsSort(sv, allowed, spec)
  {
    SplitExistsIff(sv);
    forall head, tail | IsSplit(sv, head, tail)
      ensures ParseSort(sv, allowed) == Ok(spec) <==> AreParts(head, tail, allowed, spec)
    {
      ParseSortJoined(sv, head, tail, allowed);
      ParsePartsIff(head, tail, allowed, spec);
    }
  }

  /** Either direction in either case is read as documented. */
  lemma DirectionsAreAccepted(letters: string, direction: string, allowed: seq<string>)
    requires "name" in allowed
    requires || (direction == "ASC" && (letters == "ASC" || letters == "asc"))
             || (direction == "DESC" && (letters == "DESC" || letters == "desc"))
    ensures ParseSort("name," + letters, allowed) == Ok(SortSpec("name", direction))
  {
    TrimPadded("", letters, "");
    assert "" + letters + "" == letters;
    SortOf("name," + letters, "name", letters, allowed, SortSpec("name", direction));
  }

  /** An input only the special case of a long s lets in. */
  lemma LongSIsAccepted(allowed: seq<string>)
    requires "name" in allowed
    ensures ParseSort("name,de\U{17F}c", allowed) == Ok(SortSpec("name", "DESC"))
  {
    SortOf("name,de\U{17F}c", "name", "de\U{17F}c", allowed, SortSpec("name", "DESC"));
  }

  lemma SortOf(sv: string, head: string, tail: string, allowed: seq<string>, spec: SortSpec)
    requires IsSplit(sv, head, tail) && AreParts(head, tail, allowed, spec)
    ensures ParseSort(sv, allowed) == Ok(spec)
  {
    ParseSortIff(sv, allowed, spec);
  }

  /** Why a sort value is refused: no comma, else a field off the list, else no direction. */
  lemma SortErrorCases(sv: string, allowed: seq<string>, head: string, tail: string)
    requires ParseSort(sv, allowed).Err?
    ensures ParseSort(sv, allowed).error.InvalidSortFormat? <==> ',' !in sv
    ensures ',' !in sv ==> ParseSort(sv, allowed).error == InvalidSortFormat(sv)
    ensures IsSplit(sv, head, tail) ==>
              ParseSort(sv, allowed).error ==
                if TrimSpace(head) !in allowed then SortFieldNotAllowed(TrimSpace(head)) else InvalidSortDirection(tail)
  {
    SplitExistsIff(sv);
    if IsSplit(sv, head, tail) {
      ParseSortJoined(sv, head, tail, allowed);
    }
  }

  /** The values a query gives for a key. */
  function TextsOf(q: Values, key: string): seq<string> {
    if key in q then q[key] else []
  }

  /** The first of them, which is the one that counts. */
  function First(q: Values, key: string): string {
    if TextsOf(q, key) == [] then "" else TextsOf(q, key)[0]
  }

  lemma GetIsFirst(q: Values, key: string)
    ensures Get(q, key) == First(q, key)
  {
  }

  /** What the page or size parameter asks for: a default when empty, else its numeral. */
  ghost predicate Asks(q: Values, key: string, default: int, n: int) {
    if First(q, key) == "" then n == default else IsPositiveNumeral(First(q, key), n)
  }

  /** What was asked for, or the maximum if that is less. */
  predicate IsCapped(n: int, max: int, size: int) {
    (n <= max ==> size == n) && (n > max ==> size == max)
  }

  ghost predicate AsksSize(q: Values, c: Config, size: int) {
    exists n :: Asks(q, "size", c.defaultSize, n) && IsCapped(n, c.maxSize, size)
  }

  /** A query and the parameters it stands for. */
  ghost predicate Means(q: Values, config: Config, p: ListParams) {
    var c := WithDefaults(config);
    var sorts := TextsOf(q, "sort");
    && Asks(q, "page", c.defaultPage, p.page)
    && AsksSize(q, c, p.size)
    && |p.sorts| == |sorts|
    && (forall i | 0 <= i < |sorts| :: IsSort(sorts[i], c.allowedSortFields, p.sorts[i]))
    && (forall k :: k in p.filters <==> k in q && !IsReserved(k) && k in c.allowedFilterFields)
    && (forall k | k in p.filters :: p.filters[k] == First(q, k))
  }

  lemma PageIff(q: Values, c: Config, n: int)
    ensures ParsePage(q, c) == Ok(n) <==> Asks(q, "page", c.defaultPage, n)
  {
    GetIsFirst(q, "page");
    AtoiPositiveIff(First(q, "page"), n);
  }

  lemma SizeIff(q: Values, c: Config, size: int)
    ensures ParseSize(q, c) == Ok(size) <==> AsksSize(q, c, size)
  {
    var v := First(q, "size");
    GetIsFirst(q, "size");
    forall n ensures IsPositiveNumeral(v, n) <==> Atoi(v) == Some(n) && n >= 1 {
      AtoiPositiveIff(v, n);
    }
    if ParseSize(q, c) == Ok(size) {
      var n := if v == "" then c.defaultSize else Atoi(v).value;
      assert Asks(q, "size", c.defaultSize, n) && IsCapped(n, c.maxSize, size);
    }
  }

  /** The size of an accepted query: what it asks for, or by default the configured size, up to the maximum. */
  lemma SizeOfQuery(q: Values, config: Config, n: int)
    requires Parse(q, config).Ok? && Asks(q, "size", WithDefaults(config).defaultSize, n)
    ensures Parse(q, config).value.size == if n <= WithDefaults(config).maxSize then n else WithDefaults(config).maxSize
  {
    var c := WithDefaults(config);
    assert AsksSize(q, c, if n <= c.maxSize then n else c.maxSize);
    SizeIff(q, c, if n <= c.maxSize then n else c.maxSize);
  }

  lemma SortsIff(values: seq<string>, allowed: seq<string>, specs: seq<SortSpec>)
    ensures ParseSorts(values, allowed) == Ok(specs)
       <==> |specs| == |values| && forall i | 0 <= i < |specs| :: IsSort(values[i], allowed, specs[i])
  {
    var parse := SortParser(allowed);
    forall i | 0 <= i < |values| && i < |specs|
      ensures parse(values[i]) == Ok(specs[i]) <==> IsSort(values[i], allowed, specs[i])
    {
      ParseSortIff(values[i], allowed, specs[i]);
    }
    if IsCollected(parse, values, Ok(specs)) {
      CollectedIsUnique(parse, values, Ok(specs));
    }
  }

  lemma FiltersIff(q: Values, c: Config, filters: map<string, string>)
    ensures filters == ParseFilters(q, c) <==>
              && (forall k :: k in filters <==> k in q && !IsReserved(k) && k in c.allowedFilterFields)
              && (forall k | k in filters :: filters[k] == First(q, k))
  {
    forall k ensures Get(q, k) == First(q, k) {
      GetIsFirst(q, k);
    }
  }

  lemma ParseByParts(q: Values, config: Config, p: ListParams)
    ensures var c := WithDefaults(config);
            Parse(q, config) == Ok(p) <==>
              && ParsePage(q, c) == Ok(p.page) && ParseSize(q, c) == Ok(p.size)
              && ParseSorts(SortValues(q), c.allowedSortFields) == Ok(p.sorts) && p.filters == ParseFilters(q, c)
  {
  }

  /** The parser accepts a query as `p` exactly when the query means `p`. */
  lemma ParseAcceptsIff(q: Values, config: Config, p: ListParams)
    ensures Parse(q, config) == Ok(p) <==> Means(q, config, p)
  {
    var c := WithDefaults(config);
    ParseByParts(q, config, p);
    PageIff(q, c, p.page);
    SizeIff(q, c, p.size);
    assert SortValues(q) == TextsOf(q, "sort");
    SortsIff(SortValues(q), c.allowedSortFields, p.sorts);
    FiltersIff(q, c, p.filters);
  }

  ghost predicate IsSomeSort(sv: string, allowed: seq<string>) {
    exists spec :: IsSort(sv, allowed, spec)
  }

  lemma ParsedIsSort(sv: string, allowed: seq<string>)
    requires ParseSort(sv, allowed).Ok?
    ensures IsSomeSort(sv, allowed)
  {
    ParseSortIff(sv, allowed, ParseSort(sv, allowed).value);
  }

  /** The first sort value that is none, and why. */
  ghost predicate FirstBadSort(values: seq<string>, allowed: seq<string>, e: ParseError, i: nat) {
    && i < |values| && ParseSort(values[i], allowed) == Err(e)
    && forall j | 0 <= j < i :: IsSomeSort(values[j], allowed)
  }

  /** A refused query is refused for its page, else its size, else its first bad sort. */
  ghost predicate Reports(q: Values, c: Config, e: ParseError) {
    if !exists n :: Asks(q, "page", c.defaultPage, n) then e == InvalidPage(First(q, "page"))
    else if !exists n :: AsksSize(q, c, n) then e == InvalidSize(First(q, "size"))
    else exists i :: FirstBadSort(TextsOf(q, "sort"), c.allowedSortFields, e, i)
  }

  lemma FindBadSort(values: seq<string>, allowed: seq<string>) returns (i: nat)
    requires ParseSorts(values, allowed).Err?
    ensures FirstBadSort(values, allowed, ParseSorts(values, allowed).error, i)
  {
    var parse := SortParser(allowed);
    i := FirstError(parse, values);
    forall j | 0 <= j < i ensures IsSomeSort(values[j], allowed) {
      assert parse(values[j]).Ok?;
      ParsedIsSort(values[j], allowed);
    }
  }

  lemma ParseReportsFirst(q: Values, config: Config)
    requires Parse(q, config).Err?
    ensures Reports(q, WithDefaults(config), Parse(q, config).error)
  {
    var c := WithDefaults(config);
    GetIsFirst(q, "page");
    GetIsFirst(q, "size");
    forall n ensures ParsePage(q, c) == Ok(n) <==> Asks(q, "page", c.defaultPage, n) {
      PageIff(q, c, n);
    }
    forall n ensures ParseSize(q, c) == Ok(n) <==> AsksSize(q, c, n) {
      SizeIff(q, c, n);
    }
    match ParsePage(q, c)
    case Err(_) =>
    case Ok(page) =>
      assert Asks(q, "page", c.defaultPage, page);
      match ParseSize(q, c)
      case Err(_) =>
      case Ok(size) =>
        assert AsksSize(q, c, size);
        assert SortValues(q) == TextsOf(q, "sort");
        var i := FindBadSort(SortValues(q), c.allowedSortFields);
  }

  // --------------------------------------------------------------- round trip

  /** How a sort is written down: white space around its parts, and the direction's letters. */
  datatype Style = Style(a: string, b: string, c: string, d: string, letters: string)

  predicate Writes(st: Style, spec: SortSpec) {
    && AllSpace(st.a) && AllSpace(st.b) && AllSpace(st.c) && AllSpace(st.d)
    && |st.letters| == |spec.direction|
    && forall i | 0 <= i < |st.letters| ::
         SameLetter(st.letters[i], spec.direction[i])
  }

  predicate Printable(spec: SortSpec, allowed: seq<string>) {
    && spec.field in allowed && ',' !in spec.field && IsTrimmed(spec.field)
    && (spec.direction == "ASC" || spec.direction == "DESC")
  }

  function PrintSort(spec: SortSpec, st: Style): string {
    st.a + spec.field + st.b + "," + (st.c + st.letters + st.d)
  }

  /** How a query is written down: numerals, sort styles, further values behind the first of a key, and keys nobody reads. */
  datatype Writing = Writing(page: string, size: string, styles: seq<Style>, further: Values, ignored: Values)

  /** The documented format: a page, a size, the sorts in order, a value per filter. */
  function Print(p: ListParams, w: Writing): Values
    requires |w.styles| == |p.sorts|
  {
    w.ignored + (map k | k in p.filters :: [p.filters[k]] + TextsOf(w.further, k))
      + map["page" := [w.page] + TextsOf(w.further, "page"), "size" := [w.size] + TextsOf(w.further, "size"),
            "sort" := seq(|p.sorts|, i requires 0 <= i < |p.sorts| => PrintSort(p.sorts[i], w.styles[i]))]
  }

  lemma LettersAreTrimmed(st: Style, spec: SortSpec)
    requires Writes(st, spec) && (spec.direction == "ASC" || spec.direction == "DESC")
    ensures IsTrimmed(st.letters) && Spells(st.letters, spec.direction)
  {
    assert forall i | 0 <= i < |spec.direction| :: spec.direction[i] in "ASCDE";
  }

  lemma SortRoundTrip(spec: SortSpec, st: Style, allowed: seq<string>)
    requires Printable(spec, allowed) && Writes(st, spec)
    ensures IsSort(PrintSort(spec, st), allowed, spec)
  {
    var head, tail := st.a + spec.field + st.b, st.c + st.letters + st.d;
    TrimPadded(st.a, spec.field, st.b);
    LettersAreTrimmed(st, spec);
    TrimPadded(st.c, st.letters, st.d);
    assert forall c | c in st.a + st.b :: IsSpace(c);
    assert IsSplit(PrintSort(spec, st), head, tail);
    assert AreParts(head, tail, allowed, spec);
  }

  lemma KeysDiffer()
    ensures "page" != "size" && "page" != "sort" && "size" != "sort"
  {
    assert "page"[0] != "size"[0] && "size"[1] != "sort"[1];
  }

  /** What a reader of the printed query finds under the three reserved keys. */
  lemma PrintedReserved(p: ListParams, w: Writing)
    requires |w.styles| == |p.sorts|
    ensures var q := Print(p, w);
            && First(q, "page") == w.page && First(q, "size") == w.size
            && |TextsOf(q, "sort")| == |p.sorts|
            && forall i | 0 <= i < |p.sorts| :: TextsOf(q, "sort")[i] == PrintSort(p.sorts[i], w.styles[i])
  {
    KeysDiffer();
  }

  lemma PrintedSorts(p: ListParams, w: Writing, allowed: seq<string>)
    requires |w.styles| == |p.sorts|
    requires forall i | 0 <= i < |p.sorts| :: Printable(p.sorts[i], allowed) && Writes(w.styles[i], p.sorts[i])
    ensures |TextsOf(Print(p, w), "sort")| == |p.sorts|
    ensures forall i | 0 <= i < |p.sorts| :: IsSort(TextsOf(Print(p, w), "sort")[i], allowed, p.sorts[i])
  {
    PrintedReserved(p, w);
    forall i | 0 <= i < |p.sorts| ensures IsSort(PrintSort(p.sorts[i], w.styles[i]), allowed, p.sorts[i]) {
      SortRoundTrip(p.sorts[i], w.styles[i], allowed);
    }
  }

  /** The other keys are the filters', the first value of each counting, and the ignored ones. */
  lemma PrintedFilters(p: ListParams, w: Writing, c: Config, k: string)
    requires |w.styles| == |p.sorts|
    requires forall f | f in p.filters :: f in c.allowedFilterFields && !IsReserved(f)
    requires forall f | f in w.ignored :: f !in c.allowedFilterFields
    ensures k in p.filters <==> k in Print(p, w) && !IsReserved(k) && k in c.allowedFilterFields
    ensures k in p.filters ==> p.filters[k] == First(Print(p, w), k)
  {
  }

  lemma MeansByParts(q: Values, config: Config, p: ListParams, asked: int)
    requires var c, sorts := WithDefaults(config), TextsOf(q, "sort");
             && IsPositiveNumeral(First(q, "page"), p.page)
             && IsPositiveNumeral(First(q, "size"), asked) && IsCapped(asked, c.maxSize, p.size)
             && |p.sorts| == |sorts|
             && (forall i | 0 <= i < |sorts| :: IsSort(sorts[i], c.allowedSortFields, p.sorts[i]))
             && (forall k :: k in p.filters <==> k in q && !IsReserved(k) && k in c.allowedFilterFields)
             && (forall k | k in p.filters :: p.filters[k] == First(q, k))
    ensures Means(q, config, p)
  {
    assert First(q, "page") != "" && First(q, "size") != "";
    assert Asks(q, "size", WithDefaults(config).defaultSize, asked);
  }

  /** Printing any parameters in the documented format and parsing gives them back, sort order kept, the size capped. */
  lemma ParsePrint(p: ListParams, w: Writing, asked: int, config: Config)
    requires IsPositiveNumeral(w.page, p.page)
    requires IsPositiveNumeral(w.size, asked) && IsCapped(asked, WithDefaults(config).maxSize, p.size)
    requires |w.styles| == |p.sorts|
    requires forall i | 0 <= i < |p.sorts| ::
               Printable(p.sorts[i], config.allowedSortFields) && Writes(w.styles[i], p.sorts[i])
    requires forall k | k in p.filters :: k in config.allowedFilterFields && !IsReserved(k)
    requires forall k | k in w.ignored :: k !in config.allowedFilterFields
    ensures Parse(Print(p, w), config) == Ok(p)
  {
    var q := Print(p, w);
    PrintedReserved(p, w);
    PrintedSorts(p, w, config.allowedSortFields);
    forall k
      ensures k in p.filters <==> k in q && !IsReserved(k) && k in config.allowedFilterFields
      ensures k in p.filters ==> p.filters[k] == First(q, k)
    {
      PrintedFilters(p, w, config, k);
    }
    MeansByParts(q, config, p, asked);
    ParseAcceptsIff(q, config, p);
  }

  /** Every number can be written. */
  lemma NumeralOf(n: int) returns (v: string)
    requires 1 <= n <= 0x7FFF_FFFF_FFFF_FFFF
    ensures IsPositiveNumeral(v, n)
  {
    v := Itoa(n);
    AtoiItoa(n);
    AtoiPositiveIff(v, n);
  }

  // -------------------------------------------------- what accepted queries do

  /** Every config that caps sizes at 100 or less, and no other, makes the service's second clamping a no-op. */
  lemma ClampingIsFixedIff(config: Config)
    requires IsInt64(config.maxSize)
    ensures (forall q | Parse(q, config).Ok? :: ClampSize(Parse(q, config).value.size) == Parse(q, config).value.size)
       <==> WithDefaults(config).maxSize <= 100
  {
    var max := WithDefaults(config).maxSize;
    if max > 100 {
      var p := ListParams(1, max, [], map[]);
      var page := NumeralOf(1);
      var size := NumeralOf(max);
      var w := Writing(page, size, [], map[], map[]);
      ParsePrint(p, w, max, config);
      assert ClampSize(Parse(Print(p, w), config).value.size) == 100;
    }
    forall q | max <= 100 && Parse(q, config).Ok?
      ensures ClampSize(Parse(q, config).value.size) == Parse(q, config).value.size
    {
      AcceptedBounds(q, config);
    }
  }

  lemma AcceptedBounds(q: Values, config: Config)
    requires Parse(q, config).Ok?
    ensures Parse(q, config).value.page >= 1
    ensures 1 <= Parse(q, config).value.size <= WithDefaults(config).maxSize
  {
  }
}
