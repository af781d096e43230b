/** `paginate` (yatube/posts/utils.py): one page of POSTS_LIMIT items out of an
    ordered listing, chosen by the raw `page` query parameter following the
    rules of Django's Paginator.get_page with orphans = 0 and an empty first
    page allowed. Python's int() is modelled on ASCII input. */
module Pagination {
  import opened QuerySets

  const POSTS_LIMIT: nat := 10

  datatype Page<T> = Page(items: seq<T>, number: nat, numPages: nat)

  function Min(a: int, b: int): int { if a <= b then a else b }

  /** Paginator.num_pages: ceil(max(1, count) / POSTS_LIMIT). */
  function NumPages(count: nat): (n: nat)
    ensures n >= 1
    ensures count <= n * POSTS_LIMIT
    ensures count == 0 || (n - 1) * POSTS_LIMIT < count
  {
    var hits := if count < 1 then 1 else count;
    (hits + POSTS_LIMIT - 1) / POSTS_LIMIT
  }

  /** Paginator.page(number): the items from position (number - 1) * POSTS_LIMIT
      up to the next POSTS_LIMIT or the end of the listing. */
  function PageAt<T>(items: seq<T>, number: nat): (p: Page<T>)
    requires 1 <= number <= NumPages(|items|)
    ensures p.number == number && p.numPages == NumPages(|items|)
    ensures |p.items| == Min(POSTS_LIMIT, |items| - (number - 1) * POSTS_LIMIT)
    ensures forall i :: 0 <= i < |p.items| ==> p.items[i] == items[(number - 1) * POSTS_LIMIT + i]
  {
    var bottom := (number - 1) * POSTS_LIMIT;
    var top := if bottom + POSTS_LIMIT >= |items| then |items| else bottom + POSTS_LIMIT;
    Page(items[bottom..top], number, NumPages(|items|))
  }

  /** A page is a window onto the listing: its items come from the listing
      and keep the listing's order. */
  lemma {:induction false} PageIsWindow<T>(items: seq<T>, number: nat, key: T -> int)
    requires 1 <= number <= NumPages(|items|)
    ensures forall x :: x in PageAt(items, number).items ==> x in items
    ensures Descending(items, key) ==> Descending(PageAt(items, number).items, key)
  {
    var p := PageAt(items, number).items;
    var bottom := (number - 1) * POSTS_LIMIT;
    forall x | x in p ensures x in items {
      var i :| 0 <= i < |p| && p[i] == x;
      assert items[bottom + i] == x;
    }
    if Descending(items, key) {
      forall i, j | 0 <= i < j < |p| ensures key(p[i]) >= key(p[j]) {
        assert p[i] == items[bottom + i] && p[j] == items[bottom + j];
      }
    }
  }

  // ---------------------------------------------------------------------
  // Python int() on a string, as Paginator.validate_number applies it.

  /** The characters int() skips around an ASCII numeral: space, tab, LF,
      VT, FF and CR. The separators chr(28) to chr(31), which str.strip()
      would remove, are not among them. */
  predicate IsSpace(c: char) {
    c == ' ' || 9 <= c as int <= 13
  }

  predicate IsDigit(c: char) { '0' <= c <= '9' }

  function StripStart(s: string): (r: string)
    ensures |r| <= |s| && r == s[|s| - |r|..]
    ensures r == [] || !IsSpace(r[0])
  {
    if s != [] && IsSpace(s[0]) then
      var r := StripStart(s[1..]);
      assert s[|s| - |r|..] == s[1..][|s| - 1 - |r|..];
      r
    else s
  }

  function StripEnd(s: string): (r: string)
    ensures |r| <= |s| && r == s[..|r|]
    ensures r == [] || !IsSpace(r[|r| - 1])
  {
    if s != [] && IsSpace(s[|s| - 1]) then
      var r := StripEnd(s[..|s| - 1]);
      assert s[..|r|] == s[..|s| - 1][..|r|];
      r
    else s
  }

  function Strip(s: string): string { StripEnd(StripStart(s)) }

  /** Decimal digits with single underscores between digits (PEP 515):
      a digit at both ends, nothing but digits and underscores, and no two
      underscores in a row. */
  predicate IsDigitString(s: string) {
    && |s| > 0 && IsDigit(s[0]) && IsDigit(s[|s| - 1])
    && (forall i :: 0 <= i < |s| ==> IsDigit(s[i]) || s[i] == '_')
    && (forall i {:trigger s[i], s[i + 1]} :: 0 <= i < |s| - 1 ==> s[i] != '_' || s[i + 1] != '_')
  }

  /** The number the digits of s spell, underscores ignored. */
  function DigitsValue(s: string): nat
    requires forall i :: 0 <= i < |s| ==> IsDigit(s[i]) || s[i] == '_'
  {
    if s == [] then 0
    else
      var last := s[|s| - 1];
      var rest := DigitsValue(s[..|s| - 1]);
      if last == '_' then rest
      else
        assert IsDigit(last);
        rest * 10 + (last as int - '0' as int)
  }

  /** The digits part of int(): the value of a PEP 515 digit string, or
      None. */
  function ParseDigitString(digits: string): Option<nat> {
    if IsDigitString(digits) then Some(DigitsValue(digits))
    else None
  }

  /** int() on text already stripped: an optional sign, then digits. */
  function ParseSigned(t: string): Option<int> {
    if |t| > 0 && (t[0] == '-' || t[0] == '+') then
      match ParseDigitString(t[1..])
      case None => None
      case Some(n) =>
        var k: int := n;
        Some(if t[0] == '-' then -k else k)
    else
      match ParseDigitString(t)
      case None => None
      case Some(n) =>
        var k: int := n;
        Some(k)
  }

  /** int(text): surrounding whitespace, an optional sign, then digits;
      None stands for the ValueError. */
  function ParseInt(text: string): Option<int> {
    ParseSigned(Strip(text))
  }

  /** Decimal rendering of a natural number. */
  function ShowNat(n: nat): string
    decreases n
  {
    var d := ['0' + (n % 10) as char];
    if n < 10 then d else ShowNat(n / 10) + d
  }

  /** Decimal rendering of an integer, as str(n) gives it. */
  function ShowInt(n: int): string {
    if n < 0 then "-" + ShowNat(-n) else ShowNat(n)
  }

  lemma {:induction false} ShowNatDigits(n: nat)
    ensures |ShowNat(n)| > 0
    ensures forall i :: 0 <= i < |ShowNat(n)| ==> IsDigit(ShowNat(n)[i])
    ensures DigitsValue(ShowNat(n)) == n
    decreases n
  {
    var s := ShowNat(n);
    if n >= 10 {
      ShowNatDigits(n / 10);
      assert s[..|s| - 1] == ShowNat(n / 10);
    }
  }

  lemma NoSpaceAtEnds(s: string)
    requires s != [] && !IsSpace(s[0]) && !IsSpace(s[|s| - 1])
    ensures Strip(s) == s
  {
    assert StripStart(s) == s;
  }

  lemma AllDigits(d: string)
    requires d != [] && forall i :: 0 <= i < |d| ==> IsDigit(d[i])
    ensures IsDigitString(d) && !IsSpace(d[0]) && !IsSpace(d[|d| - 1])
  {
  }

  /** Plain decimal digits read back as their value. */
  lemma ParseDigits(d: string)
    requires d != [] && forall i :: 0 <= i < |d| ==> IsDigit(d[i])
    ensures ParseInt(d) == Some(DigitsValue(d) as int)
  {
    AllDigits(d);
    NoSpaceAtEnds(d);
    assert Strip(d) == d;
    assert !(d[0] == '-' || d[0] == '+');
    assert ParseDigitString(d) == Some(DigitsValue(d));
  }

  /** A minus sign before decimal digits reads back as the negated value. */
  lemma ParseNegatedDigits(d: string)
    requires d != [] && forall i :: 0 <= i < |d| ==> IsDigit(d[i])
    ensures ParseInt("-" + d) == Some(-(DigitsValue(d) as int))
  {
    var s := "-" + d;
    assert s[0] == '-' && s[1..] == d && s[|s| - 1] == d[|d| - 1];
    SignedDigits(s, d);
  }

  lemma SignedDigits(s: string, d: string)
    requires d != [] && forall i :: 0 <= i < |d| ==> IsDigit(d[i])
    requires |s| > 1 && s[0] == '-' && s[1..] == d && s[|s| - 1] == d[|d| - 1]
    ensures ParseInt(s) == Some(-(DigitsValue(d) as int))
  {
    AllDigits(d);
    NoSpaceAtEnds(s);
    assert ParseInt(s) == ParseSigned(s);
    assert ParseDigitString(s[1..]) == Some(DigitsValue(d));
  }

  /** Reading back a rendered page number gives that number: int(str(n)) == n. */
  lemma ParseShowInt(n: int)
    ensures ParseInt(ShowInt(n)) == Some(n)
  {
    if n < 0 {
      ShowNatDigits(-n);
      ParseNegatedDigits(ShowNat(-n));
    } else {
      ShowNatDigits(n);
      ParseDigits(ShowNat(n));
    }
  }

  /** A parameter without a single digit, such as `?page=last`, is not an
      integer. */
  lemma NoDigitNoNumber(text: string)
    requires forall i :: 0 <= i < |text| ==> !IsDigit(text[i])
    ensures ParseInt(text) == None
  {
    var s := StripStart(text);
    var t := StripEnd(s);
    forall i | 0 <= i < |t| ensures !IsDigit(t[i]) {
      assert t[i] == s[i] == text[|text| - |s| + i];
    }
    NoDigitNotSigned(t);
  }

  lemma NoDigitNotSigned(t: string)
    requires forall i :: 0 <= i < |t| ==> !IsDigit(t[i])
    ensures ParseSigned(t) == None
  {
    if |t| > 1 {
      assert t[1..][0] == t[1];
    }
  }

  /** An information separator before the digits, as in `?page=%1C2`, is
      not whitespace to int(): the parameter is not an integer. */
  lemma SeparatorIsNotSpace()
    ensures ParseInt([28 as char, '2']) == None
  {
    var s := [28 as char, '2'];
    NoSpaceAtEnds(s);
    assert !IsDigitString(s);
  }

  // ---------------------------------------------------------------------
  // get_page

  /** Paginator.get_page's choice of page: a missing or non-integer
      parameter (PageNotAnInteger) gives page 1, a number below 1 or past the
      last page (EmptyPage) gives the last page. */
  function PageNumber(raw: Option<string>, numPages: nat): (n: nat)
    requires numPages >= 1
    ensures 1 <= n <= numPages
  {
    match raw
    case None => 1
    case Some(text) =>
      match ParseInt(text)
      case None => 1
      case Some(k) => if k < 1 || k > numPages then numPages else k
  }

  /** utils.paginate(request, items) with request.GET.get('page') == raw. */
  function Paginate<T>(items: seq<T>, raw: Option<string>): (p: Page<T>)
    ensures |p.items| <= POSTS_LIMIT
    ensures p.numPages == NumPages(|items|) && 1 <= p.number <= p.numPages
    ensures p == PageAt(items, p.number)
    ensures raw.None? ==> p.number == 1
    ensures raw.Some? && ParseInt(raw.value).None? ==> p.number == 1
    ensures raw.Some? && ParseInt(raw.value).Some? ==>
              var k := ParseInt(raw.value).value;
              p.number == (if 1 <= k <= p.numPages then k else p.numPages)
  {
    PageAt(items, PageNumber(raw, NumPages(|items|)))
  }

  /** Pages 1 to k of a listing, concatenated in page order. */
  function FirstPages<T>(items: seq<T>, k: nat): seq<T>
    requires k <= NumPages(|items|)
  {
    if k == 0 then [] else FirstPages(items, k - 1) + PageAt(items, k).items
  }

  lemma {:induction false} FirstPagesArePrefix<T>(items: seq<T>, k: nat)
    requires k <= NumPages(|items|)
    ensures FirstPages(items, k) == items[..Min(k * POSTS_LIMIT, |items|)]
  {
    if k > 0 {
      FirstPagesArePrefix(items, k - 1);
      var bottom := (k - 1) * POSTS_LIMIT;
      var top := Min(k * POSTS_LIMIT, |items|);
      assert bottom <= |items|;
      assert PageAt(items, k).items == items[bottom..top];
      assert items[..bottom] + items[bottom..top] == items[..top];
    }
  }

  /** The pages of a listing, read in order, are exactly the listing. */
  lemma PagesRebuildListing<T>(items: seq<T>)
    ensures FirstPages(items, NumPages(|items|)) == items
  {
    FirstPagesArePrefix(items, NumPages(|items|));
  }

  /** An empty listing still has a page 1, with no items. */
  lemma EmptyListing<T>(items: seq<T>, raw: Option<string>)
    requires items == []
    ensures Paginate(items, raw).number == 1 && Paginate(items, raw).numPages == 1
    ensures Paginate(items, raw).items == []
  {
  }

  /** Thirteen posts: page 1 holds ten and `?page=2` holds the other three. */
  lemma ThirteenItems<T>(items: seq<T>)
    requires |items| == 13
    ensures |Paginate(items, None).items| == 10
    ensures |Paginate(items, Some("2")).items| == 3
  {
    assert NumPages(13) == 2;
    assert ShowInt(2) == "2";
    ParseShowInt(2);
    var second := Paginate(items, Some("2"));
    assert second.number == 2;
    assert |second.items| == Min(POSTS_LIMIT, 13 - POSTS_LIMIT);
  }
}
