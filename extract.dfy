/**
 * The field extractor `extract_immigration_data` of main.py.
 *
 * Each of the two fields is the regular expression `(?<=prefix)[\d,]+`
 * searched in the page text, with its commas removed, or the sentinel
 * "N/A" when the expression does not match.  The search is specified here
 * by the leftmost position that satisfies the look-behind and starts a run
 * of digits or commas, and implemented by a scanning method proved against
 * that specification.
 */
module Extract {
  import opened Wrappers

  /** The look-behind of the first expression. */
  const ImmigrantsPrefix: string := "Immigrants "

  /** The look-behind of the second expression; it matches the tail of "Non-immigrants ". */
  const NonImmigrantsPrefix: string := "immigrants "

  /** The value of a field whose expression does not match. */
  const NotAvailable: string := "N/A"

  /** The page text on which the extractor returns an empty string instead of two fields. */
  const QuirkText: string := "name"

  predicate IsDigit(c: char) { '0' <= c <= '9' }

  /** A member of the character class `[\d,]`. */
  predicate IsFieldChar(c: char) { IsDigit(c) || c == ',' }

  /** The search can start a match at `p`: the look-behind holds and `[\d,]+` can take one character. */
  predicate MatchesAt(t: string, prefix: string, p: int)
  {
    |prefix| <= p < |t| && t[p - |prefix|..p] == prefix && IsFieldChar(t[p])
  }

  /** `re.search` trying the start positions `from`, `from + 1`, ... in turn. */
  function FirstMatch(t: string, prefix: string, from: nat): (r: Option<nat>)
    requires from <= |t|
    ensures r.Some? ==> from <= r.value && MatchesAt(t, prefix, r.value)
    ensures r.Some? ==> forall q :: from <= q < r.value ==> !MatchesAt(t, prefix, q)
    ensures r.None? ==> forall q :: from <= q < |t| ==> !MatchesAt(t, prefix, q)
    decreases |t| - from
  {
    if from == |t| then None
    else if MatchesAt(t, prefix, from) then Some(from)
    else FirstMatch(t, prefix, from + 1)
  }

  /** The run `t[p..e]` is a greedy `[\d,]+` match: it cannot be extended. */
  predicate IsMaximalRun(t: string, p: int, e: int)
  {
    0 <= p <= e <= |t|
    && (forall k :: p <= k < e ==> IsFieldChar(t[k]))
    && (e == |t| || !IsFieldChar(t[e]))
  }

  /** Where the greedy run of digits and commas starting at `p` ends. */
  function RunEnd(t: string, p: nat): (e: nat)
    requires p <= |t|
    ensures IsMaximalRun(t, p, e)
    decreases |t| - p
  {
    if p < |t| && IsFieldChar(t[p]) then RunEnd(t, p + 1) else p
  }

  /** `s.replace(',', '')` */
  function StripCommas(s: string): (r: string)
    ensures |r| <= |s|
    ensures forall c :: c in r <==> c in s && c != ','
  {
    if s == [] then []
    else (if s[0] == ',' then [] else [s[0]]) + StripCommas(s[1..])
  }

  /** Removing commas distributes over concatenation, so the other characters keep their order. */
  lemma {:induction false} StripCommasConcat(a: string, b: string)
    ensures StripCommas(a + b) == StripCommas(a) + StripCommas(b)
  {
    if a == [] {
      assert a + b == b;
    } else {
      assert (a + b)[0] == a[0];
      assert (a + b)[1..] == a[1..] + b;
      StripCommasConcat(a[1..], b);
    }
  }

  /**
   * A run of digits and commas loses exactly its commas: what is left is all
   * digits, and it is empty exactly when the run held nothing but commas.
   */
  lemma {:induction false} StripCommasOfRun(s: string)
    requires forall k :: 0 <= k < |s| ==> IsFieldChar(s[k])
    ensures forall c :: c in StripCommas(s) ==> IsDigit(c)
    ensures StripCommas(s) == [] <==> forall k :: 0 <= k < |s| ==> s[k] == ','
  {
    if s != [] {
      StripCommasOfRun(s[1..]);
      assert forall k :: 1 <= k < |s| ==> s[k] == s[1..][k - 1];
    }
  }

  /**
   * One field of `extract_immigration_data`: "N/A" exactly when no position
   * matches, and otherwise the digits of the match, which can never read "N/A".
   */
  function Field(t: string, prefix: string): (f: string)
    ensures f == NotAvailable <==> forall q :: 0 <= q < |t| ==> !MatchesAt(t, prefix, q)
    ensures f != NotAvailable ==> forall c :: c in f ==> IsDigit(c)
  {
    match FirstMatch(t, prefix, 0)
    case None => NotAvailable
    case Some(p) =>
      var run := t[p..RunEnd(t, p)];
      assert forall c :: c in StripCommas(run) ==> IsDigit(c) by {
        StripCommasOfRun(run);
      }
      assert 'N' !in StripCommas(run) && 'N' in NotAvailable;
      StripCommas(run)
  }

  /**
   * The field is determined by the leftmost match position and the greedy run
   * there, however they were found.
   */
  lemma FieldAtLeftmostMatch(t: string, prefix: string, p: nat, e: nat)
    requires MatchesAt(t, prefix, p)
    requires forall q :: 0 <= q < p ==> !MatchesAt(t, prefix, q)
    requires IsMaximalRun(t, p, e)
    ensures Field(t, prefix) == StripCommas(t[p..e])
  {
    assert FirstMatch(t, prefix, 0) == Some(p);
    assert RunEnd(t, p) == e;
  }

  /** A match whose digits are all commas yields the empty string, not "N/A". */
  lemma CommaOnlyFieldIsEmpty(t: string, prefix: string, p: nat, e: nat)
    requires MatchesAt(t, prefix, p)
    requires forall q :: 0 <= q < p ==> !MatchesAt(t, prefix, q)
    requires IsMaximalRun(t, p, e)
    requires forall k :: p <= k < e ==> t[k] == ','
    ensures Field(t, prefix) == ""
  {
    FieldAtLeftmostMatch(t, prefix, p, e);
    var run := t[p..e];
    forall k | 0 <= k < |run|
      ensures IsFieldChar(run[k]) && run[k] == ','
    {
      assert run[k] == t[p + k];
    }
    StripCommasOfRun(run);
  }

  /**
   * The two look-behinds differ in their first letter, so no position of
   * any text can satisfy both: the lookups cannot pick up each other's number.
   */
  lemma PrefixesNeverShareAMatch(t: string, p: int)
    ensures !(MatchesAt(t, ImmigrantsPrefix, p) && MatchesAt(t, NonImmigrantsPrefix, p))
  {
    assert ImmigrantsPrefix[0] != NonImmigrantsPrefix[0];
  }

  /** Neither "N/A" nor a string of digits holds a comma, so a field never breaks the row format. */
  lemma FieldHasNoComma(t: string, prefix: string)
    ensures ',' !in Field(t, prefix)
  {
  }

  /** What `extract_immigration_data` returns: the two fields, or "" for the text "name". */
  datatype Extracted = Fields(immigrants: string, nonImmigrants: string) | EmptyString

  function ImmigrationData(text: string): (r: Extracted)
    ensures r.EmptyString? <==> text == QuirkText
    ensures r.Fields? ==>
      (r.immigrants == NotAvailable <==> forall q :: 0 <= q < |text| ==> !MatchesAt(text, ImmigrantsPrefix, q))
    ensures r.Fields? ==>
      (r.nonImmigrants == NotAvailable <==> forall q :: 0 <= q < |text| ==> !MatchesAt(text, NonImmigrantsPrefix, q))
    ensures r.Fields? && r.immigrants != NotAvailable ==> forall c :: c in r.immigrants ==> IsDigit(c)
    ensures r.Fields? && r.nonImmigrants != NotAvailable ==> forall c :: c in r.nonImmigrants ==> IsDigit(c)
  {
    if text == QuirkText then EmptyString
    else Fields(Field(text, ImmigrantsPrefix), Field(text, NonImmigrantsPrefix))
  }

  /** Scans the page for the leftmost match of one expression and collects its digits. */
  method ScanField(t: string, prefix: string) returns (f: string)
    ensures f == Field(t, prefix)
  {
    var p := 0;
    while p < |t| && !MatchesAt(t, prefix, p)
      invariant 0 <= p <= |t|
      invariant forall q :: 0 <= q < p ==> !MatchesAt(t, prefix, q)
    {
      p := p + 1;
    }
    if p == |t| {
      return NotAvailable;
    }
    var e := p;
    f := "";
    while e < |t| && IsFieldChar(t[e])
      invariant p <= e <= |t|
      invariant forall k :: p <= k < e ==> IsFieldChar(t[k])
      invariant f == StripCommas(t[p..e])
    {
      assert t[p..e + 1] == t[p..e] + [t[e]];
      StripCommasConcat(t[p..e], [t[e]]);
      assert StripCommas([t[e]]) == if t[e] == ',' then [] else [t[e]];
      if t[e] != ',' {
        f := f + [t[e]];
      }
      e := e + 1;
    }
    FieldAtLeftmostMatch(t, prefix, p, e);
  }

  /** `extract_immigration_data(text)` by scanning. */
  method ScanImmigrationData(text: string) returns (r: Extracted)
    ensures r == ImmigrationData(text)
  {
    if text == QuirkText {
      return EmptyString;
    }
    var immigrants := ScanField(text, ImmigrantsPrefix);
    var nonImmigrants := ScanField(text, NonImmigrantsPrefix);
    r := Fields(immigrants, nonImmigrants);
  }

  /** A number already free of commas comes through `StripCommas` unchanged. */
  lemma {:induction false} StripCommasKeepsDigits(s: string)
    requires ',' !in s
    ensures StripCommas(s) == s
  {
    if s != [] {
      assert s == [s[0]] + s[1..];
      StripCommasKeepsDigits(s[1..]);
    }
  }

  /** A page fragment of the shape both expressions look for. */
  const SampleText: string := ImmigrantsPrefix + "1,234" + " Non-" + NonImmigrantsPrefix + "5,678"

  /** Before position 32 no position of the sample follows "immigrants ". */
  lemma SampleHasNoEarlyNonImmigrantsMatch(t: string)
    requires t == SampleText
    ensures forall q :: 0 <= q < 32 ==> !MatchesAt(t, NonImmigrantsPrefix, q)
  {
    forall q | 11 <= q < 32
      ensures !MatchesAt(t, NonImmigrantsPrefix, q)
    {
      assert t[q - 11..q][0] == t[q - 11];
      assert t[q - 11..q][10] == t[q - 1];
      assert t[q - 1] != ' ' || t[q - 11] != 'i';
    }
  }

  /** A leading comma is dropped. */
  lemma StripCommasDropsLeadingComma(low: string)
    ensures StripCommas([','] + low) == StripCommas(low)
  {
    assert ([','] + low)[1..] == low;
  }

  /** A single thousands separator between two comma-free groups is dropped and the digits close up. */
  lemma ThousandsSeparatorDropped(s: string, high: string, low: string)
    requires s == high + "," + low && ',' !in high && ',' !in low
    ensures StripCommas(s) == high + low
  {
    var rest := [','] + low;
    assert s == high + rest;
    calc {
      StripCommas(high + rest);
    == { StripCommasConcat(high, rest); }
      StripCommas(high) + StripCommas(rest);
    == { StripCommasKeepsDigits(high); StripCommasDropsLeadingComma(low); }
      high + StripCommas(low);
    == { StripCommasKeepsDigits(low); }
      high + low;
    }
  }

  /** A field whose leftmost run is two comma-free groups around one comma is the two groups closed up. */
  lemma FieldOfGroupedRun(t: string, prefix: string, p: nat, e: nat, high: string, low: string)
    requires MatchesAt(t, prefix, p)
    requires forall q :: 0 <= q < p ==> !MatchesAt(t, prefix, q)
    requires IsMaximalRun(t, p, e)
    requires t[p..e] == high + "," + low && ',' !in high && ',' !in low
    ensures Field(t, prefix) == high + low
  {
    FieldAtLeftmostMatch(t, prefix, p, e);
    ThousandsSeparatorDropped(t[p..e], high, low);
  }

  /** In the sample, "Immigrants " is followed at position 11 by the complete run "1,234". */
  lemma SampleImmigrantsRun(t: string)
    requires t == SampleText
    ensures MatchesAt(t, ImmigrantsPrefix, 11) && IsMaximalRun(t, 11, 16)
    ensures t[11..16] == "1" + "," + "234"
  {
    assert t[..11] == ImmigrantsPrefix;
  }

  /** In the sample, "immigrants " is followed at position 32 by the complete run "5,678". */
  lemma SampleNonImmigrantsRun(t: string)
    requires t == SampleText
    ensures MatchesAt(t, NonImmigrantsPrefix, 32) && IsMaximalRun(t, 32, 37)
    ensures t[32..37] == "5" + "," + "678"
  {
    assert t[21..32] == NonImmigrantsPrefix;
  }

  /** "Immigrants 1,234" yields the first field "1234". */
  lemma SampleImmigrants(t: string)
    requires t == SampleText
    ensures Field(t, ImmigrantsPrefix) == "1234"
  {
    SampleImmigrantsRun(t);
    FieldOfGroupedRun(t, ImmigrantsPrefix, 11, 16, "1", "234");
  }

  /** "Non-immigrants 5,678" yields the second field "5678": the look-behind skips "Immigrants 1,234". */
  lemma SampleNonImmigrants(t: string)
    requires t == SampleText
    ensures Field(t, NonImmigrantsPrefix) == "5678"
  {
    SampleNonImmigrantsRun(t);
    SampleHasNoEarlyNonImmigrantsMatch(t);
    FieldOfGroupedRun(t, NonImmigrantsPrefix, 32, 37, "5", "678");
  }

  /** On the sample page the extractor returns both numbers without their commas. */
  lemma SampleImmigrationData(t: string)
    requires t == SampleText
    ensures ImmigrationData(t) == Fields("1234", "5678")
  {
    assert t != QuirkText by { assert |t| != |QuirkText|; }
    SampleImmigrants(t);
    SampleNonImmigrants(t);
  }
}
