/** The -ports list: "8081,8090-8092" stands for 8081, 8090, 8091, 8092. */
module Ports {
  import opened Wrappers
  import opened Decimal
  import opened Cyclic

  // ------------------------------------------------ strings

  /** strings.Split(s, ","). */
  function Split(s: string): (parts: seq<string>)
    ensures |parts| > 0
    ensures forall i :: 0 <= i < |parts| ==> ',' !in parts[i]
  {
    if s == "" then [""]
    else
      var rest := Split(s[1..]);
      if s[0] == ',' then [""] + rest else [[s[0]] + rest[0]] + rest[1..]
  }

  function Join(parts: seq<string>): string
    requires |parts| > 0
  {
    if |parts| == 1 then parts[0] else parts[0] + "," + Join(parts[1..])
  }

  lemma {:induction false} JoinSplit(s: string)
    ensures Join(Split(s)) == s
  {
    if s != "" {
      JoinSplit(s[1..]);
      var rest := Split(s[1..]);
      if s[0] == ',' {
        assert Split(s)[1..] == rest;
      } else {
        assert Split(s)[1..] == rest[1..];
      }
    }
  }

  lemma {:induction false} SplitJoin(parts: seq<string>)
    requires |parts| > 0 && forall i :: 0 <= i < |parts| ==> ',' !in parts[i]
    ensures Split(Join(parts)) == parts
    decreases |parts|, |parts[0]|
  {
    var first := parts[0];
    if first != "" {
      var shorter := [first[1..]] + parts[1..];
      SplitJoin(shorter);
      assert shorter[1..] == parts[1..];
      assert Join(parts)[1..] == Join(shorter);
      assert Join(parts)[0] == first[0] && first[0] in first;
      assert [first[0]] + first[1..] == first;
    } else if |parts| > 1 {
      SplitJoin(parts[1..]);
      assert Join(parts)[1..] == Join(parts[1..]);
    }
  }

  /** White space as Unicode defines it, which is what TrimSpace trims. */
  predicate IsSpace(c: char) {
    || '\t' <= c <= '\r' || c == ' ' || c == '\U{0085}' || c == '\U{00A0}'
    || c == '\U{1680}' || '\U{2000}' <= c <= '\U{200A}' || c == '\U{2028}' || c == '\U{2029}'
    || c == '\U{202F}' || c == '\U{205F}' || c == '\U{3000}'
  }

  predicate AllSpaces(s: string) { forall i :: 0 <= i < |s| ==> IsSpace(s[i]) }

  function TrimLeft(s: string): string {
    if s != "" && IsSpace(s[0]) then TrimLeft(s[1..]) else s
  }

  function TrimRight(s: string): string {
    if s != "" && IsSpace(s[|s| - 1]) then TrimRight(s[..|s| - 1]) else s
  }

  function TrimSpace(s: string): string { TrimRight(TrimLeft(s)) }

  lemma {:induction false} TrimLeftSplits(s: string) returns (before: string)
    ensures AllSpaces(before) && s == before + TrimLeft(s)
  {
    before := "";
    if s != "" && IsSpace(s[0]) {
      before := TrimLeftSplits(s[1..]);
      before := [s[0]] + before;
    }
  }

  lemma {:induction false} TrimRightSplits(s: string) returns (after: string)
    ensures AllSpaces(after) && s == TrimRight(s) + after
  {
    after := "";
    if s != "" && IsSpace(s[|s| - 1]) {
      after := TrimRightSplits(s[..|s| - 1]);
      after := after + [s[|s| - 1]];
    }
  }

  /** A text that neither begins nor ends with a space. */
  predicate Tight(s: string) { s == "" || (!IsSpace(s[0]) && !IsSpace(s[|s| - 1])) }

  lemma {:induction false} TrimLeftPadding(before: string, s: string)
    requires AllSpaces(before) && (s == "" || !IsSpace(s[0]))
    ensures TrimLeft(before + s) == s
  {
    if before == "" {
      assert before + s == s;
    } else {
      TrimLeftPadding(before[1..], s);
      assert (before + s)[1..] == before[1..] + s;
    }
  }

  lemma {:induction false} TrimRightPadding(s: string, after: string)
    requires AllSpaces(after) && (s == "" || !IsSpace(s[|s| - 1]))
    ensures TrimRight(s + after) == s
  {
    if after == "" {
      assert s + after == s;
    } else {
      TrimRightPadding(s, after[..|after| - 1]);
      assert (s + after)[..|s + after| - 1] == s + after[..|after| - 1];
    }
  }

  lemma TrimPadding(before: string, s: string, after: string)
    requires AllSpaces(before) && AllSpaces(after) && Tight(s)
    ensures TrimSpace(before + s + after) == s
  {
    if s == "" {
      assert before + s + after == before + after + "";
      TrimLeftPadding(before + after, "");
    } else {
      assert before + s + after == before + (s + after);
      TrimLeftPadding(before, s + after);
      TrimRightPadding(s, after);
    }
  }

  /** strings.IndexByte(s, '-'), with the length for -1. */
  function DashAt(s: string): (i: nat)
    ensures i <= |s|
    ensures i < |s| ==> s[i] == '-'
    ensures '-' !in s[..i]
  {
    if s == "" || s[0] == '-' then 0
    else
      var i := 1 + DashAt(s[1..]);
      assert s[..i] == [s[0]] + s[1..][..i - 1];
      i
  }

  // ------------------------------------------------ the parser

  /** The ports from lo to hi. */
  function Range(lo: int, hi: int): (r: seq<int>)
    ensures |r| == if lo <= hi then hi - lo + 1 else 0
    ensures forall i :: 0 <= i < |r| ==> r[i] == lo + i
  {
    seq(if lo <= hi then hi - lo + 1 else 0, i => lo + i)
  }

  /** The bounds that a trimmed item stands for. */
  function ItemBounds(item: string): Option<(int, int)> {
    var i := DashAt(item);
    var hi := if i < |item| then ParseInt64(item[i + 1..]) else None;
    if i < |item| && hi == None then None
    else
      match ParseInt64(item[..i])
      case None => None
      case Some(start) =>
        var last := if i < |item| then hi.value else start;
        if start < 1 || last > 65535 || last < start then None else Some((start, last))
  }

  function ParseItem(part: string): Option<seq<int>> {
    var item := TrimSpace(part);
    if item == "" then Some([])
    else
      match ItemBounds(item)
      case None => None
      case Some((lo, hi)) => Some(Range(lo, hi))
  }

  /** Items in order; one bad item spoils the list. */
  function ParseItems(parts: seq<string>): Option<seq<int>> {
    if |parts| == 0 then Some([])
    else
      match ParseItems(parts[..|parts| - 1])
      case None => None
      case Some(out) =>
        match ParseItem(parts[|parts| - 1])
        case None => None
        case Some(more) => Some(out + more)
  }

  function ParsePorts(s: string): Option<seq<int>> { ParseItems(Split(s)) }

  lemma {:induction false} BadItemSpoils(parts: seq<string>, k: nat)
    requires k < |parts| && ParseItem(parts[k]) == None
    ensures ParseItems(parts) == None
  {
    if k < |parts| - 1 {
      BadItemSpoils(parts[..|parts| - 1], k);
    }
  }

  /** The loop over the items, None standing for the error. */
  method Parse(s: string) returns (r: Option<seq<int>>)
    ensures r == ParsePorts(s)
  {
    var parts := Split(s);
    var out := [];
    for k := 0 to |parts|
      invariant ParseItems(parts[..k]) == Some(out)
    {
      assert parts[..k + 1][..k] == parts[..k];
      var bad, more := Expand(parts[k], out);
      if bad {
        BadItemSpoils(parts, k);
        return None;
      }
      out := more;
    }
    assert parts[..|parts|] == parts;
    return Some(out);
  }

  /** The body of the loop: the ports of one item are appended one by one. */
  method Expand(part: string, out: seq<int>) returns (bad: bool, more: seq<int>)
    ensures bad <==> ParseItem(part) == None
    ensures !bad ==> more == out + ParseItem(part).value
  {
    bad, more := false, out;
    var item := TrimSpace(part);
    if item == "" {
      return;
    }
    var i := DashAt(item);
    var lo, hi, hasHi := item, 0, false;
    assert item[..|item|] == item;
    if i < |item| {
      lo, hasHi := item[..i], true;
      var parsed := ParseInt64(item[i + 1..]);
      if parsed == None {
        return true, [];
      }
      hi := parsed.value;
    }
    var start := ParseInt64(lo);
    if start == None {
      return true, [];
    }
    if !hasHi {
      hi := start.value;
    }
    if start.value < 1 || hi > 65535 || hi < start.value {
      return true, [];
    }
    var p := start.value;
    while p <= hi
      invariant start.value <= p <= hi + 1
      invariant more == out + Range(start.value, p - 1)
    {
      more := more + [p];
      p := p + 1;
    }
  }

  // ------------------------------------------------ the grammar

  /** One item of the list as written: padding, nothing or a port or a range, padding. */
  datatype Body = Blank | Port(text: string) | Span(lo: string, hi: string)

  datatype Entry = Entry(before: string, body: Body, after: string)

  /** An unsigned number, or one with a plus sign, which Atoi allows. */
  predicate IsNumeral(t: string) {
    && t != ""
    && if t[0] == '+' then |t| > 1 && AllDigits(t[1..]) else AllDigits(t)
  }

  function NumeralValue(t: string): nat
    requires IsNumeral(t)
  {
    if t[0] == '+' then Value(t[1..]) else Value(t)
  }

  predicate GoodBody(b: Body) {
    match b
    case Blank => true
    case Port(t) => IsNumeral(t) && 1 <= NumeralValue(t) <= 65535
    case Span(lo, hi) =>
      IsNumeral(lo) && IsNumeral(hi) && 1 <= NumeralValue(lo) <= NumeralValue(hi) <= 65535
  }

  function ShowBody(b: Body): string {
    match b
    case Blank => ""
    case Port(t) => t
    case Span(lo, hi) => lo + "-" + hi
  }

  function BodyPorts(b: Body): seq<int>
    requires GoodBody(b)
  {
    match b
    case Blank => []
    case Port(t) => [NumeralValue(t)]
    case Span(lo, hi) => Range(NumeralValue(lo), NumeralValue(hi))
  }

  predicate Good(e: Entry) { AllSpaces(e.before) && AllSpaces(e.after) && GoodBody(e.body) }

  predicate AllGood(es: seq<Entry>) { forall i :: 0 <= i < |es| ==> Good(es[i]) }

  function Show(e: Entry): string { e.before + ShowBody(e.body) + e.after }

  function Shown(es: seq<Entry>): seq<string> {
    seq(|es|, i requires 0 <= i < |es| => Show(es[i]))
  }

  function Print(es: seq<Entry>): string
    requires |es| > 0
  {
    Join(Shown(es))
  }

  /** The ports the list stands for, in order. */
  function EntryPorts(es: seq<Entry>): seq<int>
    requires AllGood(es)
  {
    if |es| == 0 then [] else EntryPorts(es[..|es| - 1]) + BodyPorts(es[|es| - 1].body)
  }

  lemma NumeralParses(t: string)
    requires IsNumeral(t) && NumeralValue(t) <= 65535
    ensures ParseInt64(t) == Some(NumeralValue(t) as int)
  {
    if t[0] == '+' {
      ParseSigned(t[1..]);
      assert t == "+" + t[1..];
    } else {
      ParseSigned(t);
    }
  }

  /** Atoi gives a positive number for numerals only. */
  lemma ParsesToNumeral(t: string)
    requires ParseInt64(t).Some? && ParseInt64(t).value >= 1
    ensures IsNumeral(t) && NumeralValue(t) == ParseInt64(t).value
  {
  }

  lemma NumeralChars(t: string)
    requires IsNumeral(t)
    ensures forall c :: c in t ==> c != ',' && c != '-' && !IsSpace(c)
    ensures forall c :: c in t ==> IsDigit(c) || c == '+'
  {
    forall c | c in t
      ensures IsDigit(c) || c == '+'
    {
      var i :| 0 <= i < |t| && t[i] == c;
      if t[0] == '+' && i > 0 {
        assert t[1..][i - 1] == c;
      }
    }
  }

  lemma ShowBodyChars(b: Body)
    requires GoodBody(b)
    ensures Tight(ShowBody(b)) && ',' !in ShowBody(b)
  {
    match b
    case Blank =>
    case Port(t) => NumeralChars(t);
    case Span(lo, hi) =>
      NumeralChars(lo);
      NumeralChars(hi);
      var s := lo + "-" + hi;
      assert s[0] == lo[0] && lo[0] in lo;
      assert s[|s| - 1] == hi[|hi| - 1] && hi[|hi| - 1] in hi;
  }

  lemma {:induction false} DashBetween(lo: string, hi: string)
    requires '-' !in lo
    ensures DashAt(lo + "-" + hi) == |lo|
  {
    var s := lo + "-" + hi;
    if lo != "" {
      assert s[0] == lo[0] && lo[0] in lo;
      assert s[1..] == lo[1..] + "-" + hi;
      DashBetween(lo[1..], hi);
    }
  }

  lemma NoDash(s: string)
    requires '-' !in s
    ensures DashAt(s) == |s|
  {
  }

  /** A good entry parses to its ports. */
  lemma GoodEntryParses(e: Entry)
    requires Good(e)
    ensures ParseItem(Show(e)) == Some(BodyPorts(e.body))
    ensures ',' !in Show(e)
  {
    var item := ShowBody(e.body);
    ShowBodyChars(e.body);
    TrimPadding(e.before, item, e.after);
    match e.body
    case Blank =>
    case Port(t) =>
      NumeralChars(t);
      NoDash(t);
      assert t[..|t|] == t;
      NumeralParses(t);
      assert Range(NumeralValue(t), NumeralValue(t)) == [NumeralValue(t)];
    case Span(lo, hi) =>
      NumeralChars(lo);
      DashBetween(lo, hi);
      assert item[..|lo|] == lo && item[|lo| + 1..] == hi;
      NumeralParses(lo);
      NumeralParses(hi);
  }

  /** An item with bounds is a numeral or two with a dash between. */
  lemma BoundsComeFromNumerals(item: string) returns (body: Body)
    requires ItemBounds(item).Some?
    ensures GoodBody(body) && ShowBody(body) == item
    ensures BodyPorts(body) == Range(ItemBounds(item).value.0, ItemBounds(item).value.1)
  {
    hide ParseInt64, IsNumeral, NumeralValue;
    var i := DashAt(item);
    ParsesToNumeral(item[..i]);
    if i < |item| {
      body := Span(item[..i], item[i + 1..]);
      ParsesToNumeral(item[i + 1..]);
      assert item == item[..i] + "-" + item[i + 1..];
    } else {
      body := Port(item);
      assert item[..i] == item;
    }
  }

  /** Whatever parses is a good entry. */
  lemma ParsedIsGoodEntry(part: string) returns (e: Entry)
    requires ParseItem(part).Some?
    ensures Good(e) && Show(e) == part && BodyPorts(e.body) == ParseItem(part).value
  {
    hide ItemBounds, TrimLeft, TrimRight, IsNumeral, NumeralValue, ParseInt64;
    var before := TrimLeftSplits(part);
    var after := TrimRightSplits(TrimLeft(part));
    var item := TrimSpace(part);
    if item == "" {
      e := Entry(before, Blank, after);
    } else {
      var body := BoundsComeFromNumerals(item);
      e := Entry(before, body, after);
    }
    assert part == before + item + after;
  }

  lemma {:induction false} GoodEntriesParse(es: seq<Entry>)
    requires AllGood(es)
    ensures ParseItems(Shown(es)) == Some(EntryPorts(es))
  {
    if |es| > 0 {
      var front := es[..|es| - 1];
      GoodEntriesParse(front);
      assert Shown(es)[..|es| - 1] == Shown(front);
      GoodEntryParses(es[|es| - 1]);
    }
  }

  lemma {:induction false} ParsedAreGoodEntries(parts: seq<string>) returns (es: seq<Entry>)
    requires ParseItems(parts).Some?
    ensures AllGood(es) && Shown(es) == parts && EntryPorts(es) == ParseItems(parts).value
  {
    hide ParseItem, Good, Show;
    es := [];
    if |parts| > 0 {
      var front := ParsedAreGoodEntries(parts[..|parts| - 1]);
      var e := ParsedIsGoodEntry(parts[|parts| - 1]);
      es := front + [e];
      assert es[..|es| - 1] == front;
      assert Shown(es) == Shown(front) + [Show(e)];
    }
  }

  /** Printing a list of good entries and parsing it gives their ports back. */
  lemma ParsePrint(es: seq<Entry>)
    requires |es| > 0 && AllGood(es)
    ensures ParsePorts(Print(es)) == Some(EntryPorts(es))
  {
    var parts := Shown(es);
    forall i | 0 <= i < |parts|
      ensures ',' !in parts[i]
    {
      GoodEntryParses(es[i]);
    }
    SplitJoin(parts);
    GoodEntriesParse(es);
  }

  /** The parser accepts exactly the printed lists of good entries, with their ports. */
  lemma AcceptsExactlyTheGrammar(s: string, ports: seq<int>)
    ensures ParsePorts(s) == Some(ports)
            <==> exists es :: |es| > 0 && AllGood(es) && Print(es) == s && EntryPorts(es) == ports
  {
    if ParsePorts(s) == Some(ports) {
      var es := ParsedAreGoodEntries(Split(s));
      JoinSplit(s);
      assert |es| > 0 && AllGood(es) && Print(es) == s && EntryPorts(es) == ports;
    }
    if es :| |es| > 0 && AllGood(es) && Print(es) == s && EntryPorts(es) == ports {
      ParsePrint(es);
    }
  }

  lemma {:induction false} EntryPortsAreValid(es: seq<Entry>)
    requires AllGood(es)
    ensures forall i :: 0 <= i < |EntryPorts(es)| ==> 1 <= EntryPorts(es)[i] <= 65535
  {
    if |es| > 0 {
      EntryPortsAreValid(es[..|es| - 1]);
    }
  }

  /** Every port that comes out can be listened on. */
  lemma ParsedPortsAreValid(s: string)
    ensures match ParsePorts(s)
            case None => true
            case Some(ports) => forall i :: 0 <= i < |ports| ==> 1 <= ports[i] <= 65535
  {
    if ParsePorts(s).Some? {
      var es := ParsedAreGoodEntries(Split(s));
      EntryPortsAreValid(es);
    }
  }

  /** A list of ranges in plain decimal. */
  function Written(ranges: seq<(nat, nat)>): seq<Entry> {
    seq(|ranges|, i requires 0 <= i < |ranges| =>
      Entry("", Span(Digits(ranges[i].0), Digits(ranges[i].1)), ""))
  }

  function RangePorts(ranges: seq<(nat, nat)>): seq<int> {
    if |ranges| == 0 then []
    else RangePorts(ranges[..|ranges| - 1]) + Range(ranges[|ranges| - 1].0, ranges[|ranges| - 1].1)
  }

  predicate ValidRange(r: (nat, nat)) { 1 <= r.0 <= r.1 <= 65535 }

  lemma DigitsAreNumeral(n: nat)
    ensures IsNumeral(Digits(n)) && NumeralValue(Digits(n)) == n
  {
    ValueOfDigits(n);
    assert IsDigit(Digits(n)[0]);
  }

  lemma {:induction false} WrittenIsGood(ranges: seq<(nat, nat)>)
    requires forall i :: 0 <= i < |ranges| ==> ValidRange(ranges[i])
    ensures AllGood(Written(ranges)) && EntryPorts(Written(ranges)) == RangePorts(ranges)
  {
    if |ranges| > 0 {
      var front, last := ranges[..|ranges| - 1], ranges[|ranges| - 1];
      WrittenIsGood(front);
      DigitsAreNumeral(last.0);
      DigitsAreNumeral(last.1);
      assert Written(ranges) == Written(front) + [Entry("", Span(Digits(last.0), Digits(last.1)), "")];
    }
  }

  /** The list as it is given to -ports; no ranges are written as nothing. */
  function PrintRanges(ranges: seq<(nat, nat)>): string {
    if |ranges| == 0 then "" else Print(Written(ranges))
  }

  /** Every list of port ranges can be written down, and parsing gives its ports back. */
  lemma ParseWritten(ranges: seq<(nat, nat)>)
    requires forall i :: 0 <= i < |ranges| ==> ValidRange(ranges[i])
    ensures ParsePorts(PrintRanges(ranges)) == Some(RangePorts(ranges))
  {
    if |ranges| == 0 {
      var nothing := [Entry("", Blank, "")];
      ParsePrint(nothing);
      assert nothing[..0] == [] && EntryPorts(nothing) == [];
    } else {
      WrittenIsGood(ranges);
      ParsePrint(Written(ranges));
    }
  }

  lemma TwoItems(first: Entry, second: Entry)
    requires Good(first) && Good(second)
    ensures Print([first, second]) == Show(first) + "," + Show(second)
    ensures EntryPorts([first, second]) == BodyPorts(first.body) + BodyPorts(second.body)
  {
    var none: seq<Entry> := [];
    var one, two := [first], [first, second];
    assert two[..|two| - 1] == one && one[..|one| - 1] == none && EntryPorts(none) == [];
    assert EntryPorts(one) == BodyPorts(first.body);
    var parts := Shown(two);
    assert parts == [Show(first), Show(second)] && parts[1..] == [Show(second)];
    assert Join(parts[1..]) == Show(second);
  }

  /** The documented form, such as "8081,8090-8092": the port, then the range from below. */
  lemma ParsePortAndRange(port: nat, lo: nat, hi: nat)
    requires 1 <= port <= 65535 && 1 <= lo <= hi <= 65535
    ensures ParsePorts(Digits(port) + "," + Digits(lo) + "-" + Digits(hi))
            == Some([port as int] + seq(hi - lo + 1, i => lo + i))
  {
    hide Print, EntryPorts, ParsePorts, NumeralValue, IsNumeral, Digits;
    var first := Entry("", Port(Digits(port)), "");
    var second := Entry("", Span(Digits(lo), Digits(hi)), "");
    DigitsAreNumeral(port);
    DigitsAreNumeral(lo);
    DigitsAreNumeral(hi);
    TwoItems(first, second);
    ParsePrint([first, second]);
    assert Show(first) == Digits(port) && Show(second) == Digits(lo) + "-" + Digits(hi);
    assert Show(first) + "," + Show(second) == Digits(port) + "," + Digits(lo) + "-" + Digits(hi);
    assert BodyPorts(second.body) == seq(hi - lo + 1, i => lo + i);
  }

  // ------------------------------------------------ white space

  /** White space by code point, for the laws below. */
  predicate IsSpaceCode(n: int) {
    9 <= n <= 13 || 0x2000 <= n <= 0x200A
    || n in {0x20, 0x85, 0xA0, 0x1680, 0x2028, 0x2029, 0x202F, 0x205F, 0x3000}
  }

  /** Ranges with white space around each. */
  function Padded(ranges: seq<(nat, nat)>, pads: seq<(string, string)>): seq<Entry>
    requires |pads| == |ranges|
  {
    seq(|ranges|, i requires 0 <= i < |ranges| =>
      Entry(pads[i].0, Written(ranges)[i].body, pads[i].1))
  }

  /** White space around the items of a list changes nothing. */
  lemma ParsePadded(ranges: seq<(nat, nat)>, pads: seq<(string, string)>)
    requires |pads| == |ranges| > 0 && forall i :: 0 <= i < |ranges| ==> ValidRange(ranges[i])
    requires forall i, c :: 0 <= i < |pads| && c in pads[i].0 + pads[i].1 ==> IsSpaceCode(c as int)
    ensures ParsePorts(Print(Padded(ranges, pads))) == Some(RangePorts(ranges))
  {
    hide GoodBody, Digits, RangePorts, EntryPorts, IsSpace, IsSpaceCode;
    var es := Padded(ranges, pads);
    WrittenIsGood(ranges);
    forall i | 0 <= i < |es|
      ensures Good(es[i])
    {
      PaddingIsSpaces(pads[i].0, pads[i].1);
      assert Good(Written(ranges)[i]);
    }
    SameBodiesSamePorts(es, Written(ranges));
    ParsePrint(es);
  }

  lemma PaddingIsSpaces(before: string, after: string)
    requires forall c :: c in before + after ==> IsSpaceCode(c as int)
    ensures AllSpaces(before) && AllSpaces(after)
  {
    assert forall i :: 0 <= i < |before| ==> before[i] in before + after;
    assert forall i :: 0 <= i < |after| ==> after[i] in before + after;
  }

  lemma {:induction false} SameBodiesSamePorts(es: seq<Entry>, es': seq<Entry>)
    requires AllGood(es) && AllGood(es') && |es| == |es'|
    requires forall i :: 0 <= i < |es| ==> es[i].body == es'[i].body
    ensures EntryPorts(es) == EntryPorts(es')
  {
    if |es| > 0 {
      SameBodiesSamePorts(es[..|es| - 1], es'[..|es'| - 1]);
    }
  }

  /** And a list that is accepted holds nothing but digits, signs, commas and white space. */
  lemma AcceptedChars(s: string)
    requires ParsePorts(s).Some?
    ensures forall c :: c in s ==> '0' <= c <= '9' || c in {'+', '-', ','} || IsSpaceCode(c as int)
  {
    var es := ParsedAreGoodEntries(Split(s));
    JoinSplit(s);
    forall i | 0 <= i < |es|
      ensures Plain(Split(s)[i])
    {
      assert Shown(es)[i] == Show(es[i]);
      GoodEntryChars(es[i]);
    }
    JoinChars(Split(s));
  }

  predicate Plain(s: string) {
    forall c :: c in s ==> '0' <= c <= '9' || c in {'+', '-', ','} || IsSpaceCode(c as int)
  }

  lemma GoodEntryChars(e: Entry)
    requires Good(e)
    ensures Plain(Show(e))
  {
    var item := ShowBody(e.body);
    match e.body
    case Blank =>
    case Port(t) => NumeralChars(t);
    case Span(lo, hi) =>
      NumeralChars(lo);
      NumeralChars(hi);
    assert forall c :: c in Show(e) ==> c in e.before || c in item || c in e.after;
  }

  lemma {:induction false} JoinChars(parts: seq<string>)
    requires |parts| > 0 && forall i :: 0 <= i < |parts| ==> Plain(parts[i])
    ensures Plain(Join(parts))
  {
    if |parts| > 1 {
      JoinChars(parts[1..]);
    }
  }

  // ------------------------------------------------ addresses to listen on

  /** net.JoinHostPort. */
  function Address(host: string, port: int): string {
    (if ':' in host then "[" + host + "]" else host) + ":" + Itoa(port)
  }

  /** Where c occurs last, or the length if it does not. */
  function LastAt(s: string, c: char): (i: nat)
    ensures i <= |s|
    ensures i < |s| <==> c in s
    ensures i < |s| ==> s[i] == c && c !in s[i + 1..]
  {
    if s == "" then 0
    else
      var front, last := s[..|s| - 1], s[|s| - 1];
      assert s == front + [last];
      if last == c then |s| - 1
      else
        var i := LastAt(front, c);
        assert i < |front| ==> s[i + 1..] == front[i + 1..] + [last];
        if i < |front| then i else |s|
  }

  /** An address as a reader takes it apart, at its last colon: the host, in brackets if it has
      colons of its own, and the port. */
  function HostPart(address: string): string { address[..LastAt(address, ':')] }

  function PortPart(address: string): Option<int> {
    var i := LastAt(address, ':');
    if i < |address| then ParseInt64(address[i + 1..]) else None
  }

  /** Every address can be taken apart again. */
  lemma AddressReads(host: string, port: int)
    requires IsInt64(port)
    ensures HostPart(Address(host, port)) == if ':' in host then "[" + host + "]" else host
    ensures PortPart(Address(host, port)) == Some(port)
  {
    hide ParseInt64;
    var front := if ':' in host then "[" + host + "]" else host;
    var text, address := Itoa(port), Address(host, port);
    assert address == front + ":" + text;
    ItoaHasNoColon(port);
    var i := LastAt(address, ':');
    assert address[|front|] == ':' && address[|front| + 1..] == text;
    assert forall k :: |front| < k < |address| ==> address[k] == text[k - |front| - 1];
    assert address[..|front|] == front;
    ParseItoa(port);
  }

  lemma ItoaHasNoColon(n: int)
    ensures forall i :: 0 <= i < |Itoa(n)| ==> Itoa(n)[i] != ':'
  {
    if n < 0 {
      var d := Digits(-n);
      assert forall i :: 1 <= i < |Itoa(n)| ==> Itoa(n)[i] == d[i - 1];
    }
  }

  /** The ports without repeats, each where it first occurs. */
  function Firsts(ps: seq<int>): seq<int> {
    if |ps| == 0 then []
    else
      var front, last := ps[..|ps| - 1], ps[|ps| - 1];
      if last in front then Firsts(front) else Firsts(front) + [last]
  }

  /** Where p first occurs, or the length if it does not. */
  function FirstAt(ps: seq<int>, p: int): (i: nat)
    ensures i <= |ps|
    ensures i < |ps| <==> p in ps
    ensures i < |ps| ==> ps[i] == p
    ensures p !in ps[..i]
  {
    if |ps| == 0 || ps[0] == p then 0
    else
      var i := 1 + FirstAt(ps[1..], p);
      assert ps[..i] == [ps[0]] + ps[1..][..i - 1];
      i
  }

  lemma {:induction false} FirstAtPrefix(ps: seq<int>, more: seq<int>, p: int)
    ensures FirstAt(ps + more, p) == if p in ps then FirstAt(ps, p) else |ps| + FirstAt(more, p)
  {
    if |ps| == 0 {
      assert ps + more == more;
    } else if ps[0] != p {
      assert (ps + more)[1..] == ps[1..] + more;
      FirstAtPrefix(ps[1..], more, p);
    }
  }

  /** Same ports, none twice, in the order of their first occurrence. */
  lemma {:induction false} FirstsAreFirst(ps: seq<int>)
    ensures forall p :: p in Firsts(ps) <==> p in ps
    ensures forall i, j :: 0 <= i < j < |Firsts(ps)| ==>
              FirstAt(ps, Firsts(ps)[i]) < FirstAt(ps, Firsts(ps)[j])
    ensures Distinct(Firsts(ps))
    ensures |ps| > 0 ==> |Firsts(ps)| > 0 && Firsts(ps)[0] == ps[0]
  {
    if |ps| > 0 {
      var front, last := ps[..|ps| - 1], ps[|ps| - 1];
      FirstsAreFirst(front);
      assert ps == front + [last];
      var fs := Firsts(ps);
      forall i, j | 0 <= i < j < |fs|
        ensures FirstAt(ps, fs[i]) < FirstAt(ps, fs[j])
      {
        assert fs[i] == Firsts(front)[i] && fs[i] in front;
        assert j < |Firsts(front)| ==> fs[j] == Firsts(front)[j] && fs[j] in front;
        FirstAtPrefix(front, [last], fs[i]);
        FirstAtPrefix(front, [last], fs[j]);
      }
    }
  }

  /** The addresses of a port and an extra list. */
  function Addresses(host: string, ports: seq<int>): seq<string> {
    seq(|ports|, i requires 0 <= i < |ports| => Address(host, ports[i]))
  }

  method ListenAddrs(host: string, port: int, extra: string) returns (r: Option<seq<string>>)
    ensures r == match ParsePorts(extra)
                 case None => None
                 case Some(more) => Some(Addresses(host, Firsts([port] + more)))
  {
    hide ParsePorts, Address;
    var more := Parse(extra);
    if more == None {
      return None;
    }
    var ports := [port] + more.value;
    var seen: map<int, bool> := map[];
    var addrs := [];
    for k := 0 to |ports|
      invariant forall p :: p in seen <==> p in ports[..k]
      invariant addrs == Addresses(host, Firsts(ports[..k]))
    {
      assert ports[..k + 1][..k] == ports[..k];
      assert ports[..k + 1] == ports[..k] + [ports[k]];
      var p := ports[k];
      if p in seen {
        continue;
      }
      seen := seen[p := true];
      addrs := addrs + [Address(host, p)];
    }
    assert ports[..|ports|] == ports;
    return Some(addrs);
  }

  /** Read back, the addresses all have the host, and their ports are the main port and those of the
      list, none twice, each where it first occurs. */
  lemma AddressesAreDistinct(host: string, port: int, more: seq<int>)
    requires IsInt64(port) && forall p :: p in more ==> IsInt64(p)
    ensures var all := [port] + more;
            var addrs := Addresses(host, Firsts(all));
            && Distinct(addrs)
            && |addrs| > 0 && PortPart(addrs[0]) == Some(port)
            && (forall i :: 0 <= i < |addrs| ==>
                  HostPart(addrs[i]) == if ':' in host then "[" + host + "]" else host)
            && (forall p :: p in all <==> exists i :: 0 <= i < |addrs| && PortPart(addrs[i]) == Some(p))
            && (forall i, j :: 0 <= i < j < |addrs| ==>
                  && PortPart(addrs[i]).Some? && PortPart(addrs[j]).Some?
                  && FirstAt(all, PortPart(addrs[i]).value) < FirstAt(all, PortPart(addrs[j]).value))
  {
    hide Firsts, FirstAt, Address, PortPart, HostPart;
    var all := [port] + more;
    FirstsAreFirst(all);
    var ports := Firsts(all);
    var addrs := Addresses(host, ports);
    forall i | 0 <= i < |addrs|
      ensures HostPart(addrs[i]) == if ':' in host then "[" + host + "]" else host
      ensures PortPart(addrs[i]) == Some(ports[i])
    {
      assert ports[i] in ports && ports[i] in all;
      AddressReads(host, ports[i]);
    }
    forall p | p in all
      ensures exists i :: 0 <= i < |addrs| && PortPart(addrs[i]) == Some(p)
    {
      var i :| 0 <= i < |ports| && ports[i] == p;
      assert PortPart(addrs[i]) == Some(p);
    }
  }
}
