/**
 * The printer of cJSON.c as it runs: each function adds up a length in an int, allocates that much, and
 * writes through a moving index. That every write is inside the allocation is the bounds check on `out`.
 */
module JsonPrint {
  import opened Bytes
  import opened CWords
  import opened Json

  /** How a call ends that makes no text: malloc refuses a negative size, or a write runs past the end of
      what was allocated, or there are more entries than an int counts. */
  datatype Fate = NoMemory | Beyond

  /** What is printed, or why nothing is. */
  datatype Printed = Made(out: array<Byte>) | Failed(fate: Fate)

  /** What becomes of an allocation of `size` for `need` bytes. */
  function FateOf(size: int): Fate { if size < 0 then NoMemory else Beyond }

  /** `a` holds `t` as a C string. */
  ghost predicate Holds(a: array<Byte>, t: Text)
    reads a
  {
    |t| < a.Length && a[..|t|] == t && a[|t|] == 0
  }

  // ---------------------------------------------------------------- no NUL in what is printed

  lemma NulFreeJoin(a: Text, b: Text)
    requires NulFree(a) && NulFree(b)
    ensures NulFree(a + b)
  {}

  lemma {:induction false} DecimalNulFree(n: nat)
    ensures NulFree(Decimal(n))
  {
    if n >= 10 {
      DecimalNulFree(n / 10);
    }
  }

  lemma {:induction false} EscapeNulFree(s: Text)
    requires NulFree(s)
    ensures NulFree(EscapeAll(s))
  {
    if s != [] {
      EscapeNulFree(s[1..]);
      NulFreeJoin(Escape(s[0]), EscapeAll(s[1..]));
    }
  }

  lemma StringNulFree(s: Text)
    requires NulFree(s)
    ensures NulFree(StringText(s))
  {
    EscapeNulFree(s);
  }

  lemma {:induction false} TabsNulFree(n: int)
    ensures NulFree(Tabs(n))
    decreases if n < 0 then 0 else n
  {
    if n > 0 {
      TabsNulFree(n - 1);
    }
  }

  /** The text of a printable value holds no NUL, so strlen finds its whole length. */
  lemma {:induction false} ValueNulFree(v: Value, depth: nat, fmt: bool)
    requires Printable(v)
    ensures NulFree(ValueText(v, depth, fmt))
    decreases v, 0
  {
    hide ItemsText, MembersText, Tabs, StringText, Decimal;
    match v
    case Number(n) => DecimalNulFree(if IntOf(n) < 0 then -IntOf(n) else IntOf(n));
    case String(s) => StringNulFree(s);
    case Array(items) => ItemsNulFree(items, depth + 1, fmt);
    case Object(members) =>
      MembersNulFree(members, depth + 1, fmt);
      TabsNulFree(depth - 1);
      TabsNulFree(depth);
    case _ =>
  }

  lemma {:induction false} ItemsNulFree(items: seq<Value>, depth: nat, fmt: bool)
    requires AllPrintable(items)
    ensures NulFree(ItemsText(items, depth, fmt))
    decreases items, 1
  {
    if items != [] {
      ValueNulFree(items[0], depth, fmt);
      ItemsNulFree(items[1..], depth, fmt);
    }
  }

  lemma {:induction false} MembersNulFree(members: seq<Member>, depth: nat, fmt: bool)
    requires MembersPrintable(members)
    ensures NulFree(MembersText(members, depth, fmt))
    decreases members, 1
  {
    if members != [] {
      TabsNulFree(depth);
      StringNulFree(members[0].name);
      ValueNulFree(members[0].value, depth, fmt);
      MembersNulFree(members[1..], depth, fmt);
    }
  }

  // ---------------------------------------------------------------- C library

  method StrLen(a: array<Byte>, ghost t: Text) returns (n: nat)
    requires Holds(a, t) && NulFree(t)
    ensures n == |t|
  {
    n := 0;
    assert forall i :: 0 <= i < |t| ==> a[i] == a[..|t|][i];
    while a[n] != 0
      invariant n <= |t|
      decreases |t| - n
    {
      n := n + 1;
    }
  }

  /** One byte at the index, which moves on. */
  method Put(out: array<Byte>, p: nat, c: Byte) returns (q: nat)
    requires p < out.Length
    modifies out
    ensures q == p + 1 && out[..q] == old(out[..p]) + [c]
  {
    out[p] := c;
    q := p + 1;
  }

  /** The terminating NUL. */
  method Seal(out: array<Byte>, p: nat, ghost t: Text)
    requires p < out.Length && out[..p] == t
    modifies out
    ensures Holds(out, t)
  {
    out[p] := 0;
    assert out[..p] == t;
  }

  /** A text and its terminating NUL; the index moves past the text. */
  method PutText(out: array<Byte>, p: nat, t: Text) returns (q: nat)
    requires p + |t| < out.Length
    modifies out
    ensures q == p + |t| && out[..q] == old(out[..p]) + t && out[q] == 0
  {
    q := p;
    while q < p + |t|
      invariant p <= q <= p + |t|
      invariant out[..p] == old(out[..p])
      invariant out[p..q] == t[..q - p]
    {
      out[q] := t[q - p];
      q := q + 1;
    }
    out[q] := 0;
    assert out[..q] == out[..p] + out[p..q] && t[..q - p] == t;
  }

  method StrCpy(out: array<Byte>, p: nat, src: array<Byte>, ghost t: Text)
    requires out != src && Holds(src, t) && NulFree(t) && p + |t| < out.Length
    modifies out
    ensures out[..p + |t|] == old(out[..p]) + t && out[p + |t|] == 0
  {
    var n := StrLen(src, t);
    var q := PutText(out, p, src[..n]);
  }

  method PutTabs(out: array<Byte>, p: nat, n: int) returns (q: nat)
    requires p + |Tabs(n)| <= out.Length
    modifies out
    ensures q == p + |Tabs(n)| && out[..q] == old(out[..p]) + Tabs(n)
  {
    q := p;
    var i := 0;
    while i < n
      invariant 0 <= i <= |Tabs(n)| && q == p + i
      invariant out[..q] == old(out[..p]) + Tabs(i)
    {
      TabsGrow(i);
      q := Put(out, q, TAB);
      i := i + 1;
    }
  }

  lemma {:induction false} TabsGrow(n: nat)
    ensures Tabs(n + 1) == Tabs(n) + [TAB]
  {
    if n > 0 {
      TabsGrow(n - 1);
    }
  }

  // ---------------------------------------------------------------- strings

  lemma {:induction false} EscapeSplit(a: Text, b: Text)
    ensures EscapeAll(a + b) == EscapeAll(a) + EscapeAll(b)
    decreases |a|
  {
    if a == [] {
      assert a + b == b;
    } else {
      assert (a + b)[1..] == a[1..] + b;
      EscapeSplit(a[1..], b);
    }
  }

  lemma EscapeNext(s: Text, i: nat)
    requires i < |s|
    ensures EscapeAll(s[..i + 1]) == EscapeAll(s[..i]) + Escape(s[i])
  {
    assert s[..i + 1] == s[..i] + [s[i]];
    EscapeSplit(s[..i], [s[i]]);
    assert EscapeAll([s[i]]) == Escape(s[i]) + [];
  }

  lemma EscapeRoom(s: Text, i: nat)
    requires i < |s|
    ensures |EscapeAll(s[..i])| + |Escape(s[i])| <= |EscapeAll(s)|
  {
    EscapeNext(s, i);
    assert s[..i + 1] + s[i + 1..] == s;
    EscapeSplit(s[..i + 1], s[i + 1..]);
  }

  /** What the counting loop of print_string_ptr adds for a byte besides one. */
  function Extra(c: Byte): int {
    if c in {QUOTE, BACKSLASH, 8, 12, 10, 13, 9} then 1 else if c < 32 then 5 else 0
  }

  /** The int that loop ends with: it stops where the count comes round to 0. */
  function Counted(s: Text, len: int): int {
    if s == [] then len
    else if Int32(len + 1) == 0 then 0
    else Counted(s[1..], Int32(Int32(len + 1) + Extra(s[0])))
  }

  /** What print_string_ptr allocates for a string. */
  function StringSize(s: Text): int { Int32(Counted(s, 0) + 3) }

  /** As long as the count stays in the range of an int, it is the length of what is written. */
  lemma {:induction false} CountedExact(s: Text, len: nat)
    requires len + |EscapeAll(s)| < TWO31
    ensures Counted(s, len) == len + |EscapeAll(s)|
    decreases |s|
  {
    if s != [] {
      assert |Escape(s[0])| == 1 + Extra(s[0]);
      CountedExact(s[1..], len + |Escape(s[0])|);
    }
  }

  /** The counting loop of print_string_ptr. */
  method CountEscaped(s: Text) returns (len: int)
    ensures len == Counted(s, 0)
  {
    len := 0;
    var i := 0;
    assert s[0..] == s;
    while i < |s|
      invariant 0 <= i <= |s| && Counted(s, 0) == Counted(s[i..], len)
    {
      var token := s[i];
      assert s[i..][1..] == s[i + 1..];
      len := Int32(len + 1);
      if len == 0 {
        return;
      }
      var before := len;
      if token in {QUOTE, BACKSLASH, 8, 12, 10, 13, 9} {
        len := Int32(len + 1);
      } else if token < 32 {
        len := Int32(len + 5);
      }
      assert len == Int32(before + Extra(token));
      i := i + 1;
    }
  }

  lemma StringSizeIs(s: Text)
    ensures if |EscapeAll(s)| + 3 < TWO31 then StringSize(s) == |EscapeAll(s)| + 3
            else StringSize(s) < |EscapeAll(s)| + 3
  {
    if |EscapeAll(s)| + 3 < TWO31 {
      CountedExact(s, 0);
    }
  }

  /** print_string_ptr: it makes the escaped text, in exactly the bytes counted, if and only if their number
      is in the range of an int. */
  method PrintStringPtr(s: Text) returns (r: Printed)
    requires NulFree(s)
    ensures r.Made? <==> |StringText(s)| + 1 < TWO31
    ensures r.Made? ==> fresh(r.out) && Holds(r.out, StringText(s)) && r.out.Length == |StringText(s)| + 1
    ensures r.Failed? ==> r.fate == FateOf(StringSize(s))
  {
    hide Escape, Counted;
    StringSizeIs(s);
    var len := CountEscaped(s);
    var size := Int32(len + 3);
    if size < 0 {
      return Failed(NoMemory);
    }
    if |StringText(s)| + 1 > size {
      return Failed(Beyond); // the writes below, one for each byte and the NUL, pass the end
    }
    var out := new Byte[size];
    PutString(out, s);
    r := Made(out);
  }

  /** The writing loop of print_string_ptr. */
  method PutString(out: array<Byte>, s: Text)
    requires NulFree(s) && out.Length == |EscapeAll(s)| + 3
    modifies out
    ensures Holds(out, StringText(s))
  {
    hide Escape;
    var p := Put(out, 0, QUOTE);
    var i := 0;
    while i < |s|
      invariant 0 <= i <= |s| && p == 1 + |EscapeAll(s[..i])| && p <= |EscapeAll(s)| + 1
      invariant out[..p] == [QUOTE] + EscapeAll(s[..i])
    {
      hide EscapeAll;
      EscapeNext(s, i);
      EscapeRoom(s, i);
      p := PutEscape(out, p, s[i]);
      i := i + 1;
    }
    assert s[..|s|] == s;
    p := Put(out, p, QUOTE);
    p := Put(out, p, 0);
  }

  method PutEscape(out: array<Byte>, p: nat, c: Byte) returns (q: nat)
    requires p + |Escape(c)| < out.Length
    modifies out
    ensures q == p + |Escape(c)| && out[..q] == old(out[..p]) + Escape(c)
  {
    if c > 31 && c != QUOTE && c != BACKSLASH {
      q := Put(out, p, c);
    } else {
      q := Put(out, p, BACKSLASH);
      match c {
        case 0x5c => q := Put(out, q, BACKSLASH);
        case 0x22 => q := Put(out, q, QUOTE);
        case 8 => q := Put(out, q, 0x62);
        case 12 => q := Put(out, q, 0x66);
        case 10 => q := Put(out, q, 0x6e);
        case 13 => q := Put(out, q, 0x72);
        case 9 => q := Put(out, q, 0x74);
        case _ => q := PutText(out, q, [0x75, 0x30, 0x30, HexDigit(c / 16), HexDigit(c % 16)]);
      }
    }
  }

  // ---------------------------------------------------------------- numbers

  lemma {:induction false} DecimalLength(n: nat, digits: nat)
    requires digits > 0 && n < Power(digits)
    ensures |Decimal(n)| <= digits
    decreases n
  {
    if n >= 10 {
      assert n / 10 < Power(digits - 1);
      DecimalLength(n / 10, digits - 1);
    }
  }

  function Power(digits: nat): nat { if digits == 0 then 1 else 10 * Power(digits - 1) }

  /** print_number of a C int: the 21 bytes it allocates hold the text and its NUL. */
  method PrintNumber(n: int) returns (out: array<Byte>)
    requires -0x8000_0000 <= n < 0x8000_0000
    ensures fresh(out) && Holds(out, IntText(n))
  {
    out := new Byte[21];
    assert Power(10) == 10_000_000_000 by {
      assert Power(2) == 100;
      assert Power(4) == 10_000;
      assert Power(6) == 1_000_000;
      assert Power(8) == 100_000_000;
    }
    DecimalLength(if n < 0 then -n else n, 10);
    var q := PutText(out, 0, IntText(n));
    assert out[..q] == [] + IntText(n);
  }

  // ---------------------------------------------------------------- values

  method Strdup(t: Text) returns (out: array<Byte>)
    ensures fresh(out) && Holds(out, t)
  {
    out := new Byte[|t| + 1];
    var q := PutText(out, 0, t);
    assert out[..q] == [] + t;
  }

  /** What print_array adds to its length for its entries. */
  function ItemsCount(items: seq<Value>, depth: nat, fmt: bool): nat {
    if items == [] then 0
    else |ValueText(items[0], depth, fmt)| + 2 + (if fmt then 1 else 0) + ItemsCount(items[1..], depth, fmt)
  }

  /** What print_object adds to its length for one member, and for all. */
  function MemberCount(m: Member, depth: nat, fmt: bool): nat {
    |ValueText(m.value, depth, fmt)| + |StringText(m.name)| + 2 + (if fmt then 2 + depth else 0)
  }

  function MembersCount(ms: seq<Member>, depth: nat, fmt: bool): nat {
    if ms == [] then 0 else MemberCount(ms[0], depth, fmt) + MembersCount(ms[1..], depth, fmt)
  }

  /** The lengths that are counted for a value, with their padding, are all in the range of an int. */
  ghost predicate Fits(v: Value, depth: nat, fmt: bool)
    decreases v, 0
  {
    match v
    case String(s) => |StringText(s)| + 1 < TWO31
    case Array(items) => items == [] || (5 + ItemsCount(items, depth + 1, fmt) < TWO31
         && ItemsFit(items, depth + 1, fmt))
    case Object(members) =>
      if members == [] then fmt ==> depth + 4 < TWO31
      else 7 + (if fmt then depth + 1 else 0) + MembersCount(members, depth + 1, fmt) < TWO31
           && MembersFit(members, depth + 1, fmt)
    case _ => true
  }

  ghost predicate ItemsFit(items: seq<Value>, depth: nat, fmt: bool)
    decreases items, 1
  {
    items == [] || (Fits(items[0], depth, fmt) && ItemsFit(items[1..], depth, fmt))
  }

  ghost predicate MembersFit(ms: seq<Member>, depth: nat, fmt: bool)
    decreases ms, 1
  {
    ms == [] || (MemberFits(ms[0], depth, fmt) && MembersFit(ms[1..], depth, fmt))
  }

  ghost predicate MemberFits(m: Member, depth: nat, fmt: bool)
    decreases m, 0
  {
    |StringText(m.name)| + 1 < TWO31 && Fits(m.value, depth, fmt)
  }

  /** print_value: it makes the value's text if and only if all lengths counted for it are in range. */
  method PrintValue(v: Value, depth: nat, fmt: bool) returns (r: Printed)
    requires Printable(v)
    ensures r.Made? <==> Fits(v, depth, fmt)
    ensures r.Made? ==> fresh(r.out) && Holds(r.out, ValueText(v, depth, fmt))
    decreases v, 0
  {
    var out;
    match v {
      case Null => out := Strdup(NULL_TEXT); r := Made(out);
      case False => out := Strdup(FALSE_TEXT); r := Made(out);
      case True => out := Strdup(TRUE_TEXT); r := Made(out);
      case Number(n) => out := PrintNumber(IntOf(n)); r := Made(out);
      case String(s) => r := PrintStringPtr(s);
      case Array(items) => r := PrintArray(v, depth, fmt);
      case Object(members) => r := PrintObject(v, depth, fmt);
    }
  }

  /** The counting loop in front of print_array and print_object; past the range of an int it is undefined. */
  method CountEntries(n: nat) returns (ok: bool)
    ensures ok <==> n < TWO31
  {
    var count, left := 0, n;
    while left > 0
      invariant count + left == n && count < TWO31
    {
      if count == TWO31 - 1 {
        return false;
      }
      count, left := count + 1, left - 1;
    }
    ok := true;
  }

  method PrintArray(v: Value, depth: nat, fmt: bool) returns (r: Printed)
    requires v.Array? && Printable(v)
    ensures r.Made? <==> Fits(v, depth, fmt)
    ensures r.Made? ==> fresh(r.out) && Holds(r.out, ValueText(v, depth, fmt))
    decreases v.items, 2
  {
    ItemsLong(v.items, depth + 1, fmt);
    var ok := CountEntries(|v.items|);
    if !ok {
      return Failed(Beyond);
    }
    if v.items == [] {
      var out := new Byte[3];
      var q := PutText(out, 0, [OPEN_BRACKET, CLOSE_BRACKET]);
      assert out[..q] == ValueText(v, depth, fmt);
      return Made(out);
    }
    var entries, len, fate := PrintItems(v.items, depth + 1, fmt);
    if fate.Some? {
      return Failed(fate.value);
    }
    r := ComposeArray(v.items, entries, len, depth + 1, fmt);
  }

  datatype Option<T> = None | Some(value: T)

  /** Every entry of an array printed, and the length print_array counts for them; it stops at the first failure. */
  method PrintItems(items: seq<Value>, depth: nat, fmt: bool)
    returns (entries: seq<array<Byte>>, len: int, fate: Option<Fate>)
    requires AllPrintable(items)
    ensures fate == None <==> ItemsFit(items, depth, fmt)
    ensures fate == None ==> |entries| == |items| && len == Int32(5 + ItemsCount(items, depth, fmt))
    ensures fate == None ==> forall i :: 0 <= i < |items| ==> Holds(entries[i], ValueText(items[i], depth, fmt))
    ensures forall i :: 0 <= i < |entries| ==> fresh(entries[i])
    decreases items, 1
  {
    entries, len, fate := [], 5, None;
    ghost var count := 5;
    var i := 0;
    ItemsEnds(items, depth, fmt);
    hide ItemsText, ValueText, ItemsCount, ItemsFit, Fits, AllPrintable, Printable, Holds, Int32;
    while i < |items|
      invariant 0 <= i <= |items| && |entries| == i && AllPrintable(items[i..])
      invariant forall k :: 0 <= k < i ==> Holds(entries[k], ValueText(items[k], depth, fmt))
      invariant forall k :: 0 <= k < i ==> fresh(entries[k])
      invariant ItemsFit(items, depth, fmt) <==> ItemsFit(items[i..], depth, fmt)
      invariant len == Int32(count) && count + ItemsCount(items[i..], depth, fmt) == 5 + ItemsCount(items, depth, fmt)
    {
      ItemsStep(items, i, depth, fmt);
      var ret := PrintValue(items[i], depth, fmt);
      if ret.Failed? {
        fate := Some(ret.fate);
        return;
      }
      ValueNulFree(items[i], depth, fmt);
      var n := StrLen(ret.out, ValueText(items[i], depth, fmt));
      var more := n + 2 + (if fmt then 1 else 0);
      Int32Add(count, more);
      entries, len, count := entries + [ret.out], Int32(len + more), count + more;
      i := i + 1;
    }
  }

  /** What is counted for the entries is more than is written, by one for each and two more at most. */
  lemma {:induction false} ItemsSlack(items: seq<Value>, depth: nat, fmt: bool)
    requires items != []
    ensures ItemsCount(items, depth, fmt) == |ItemsText(items, depth, fmt)| + |items| + 1 + (if fmt then 1 else 0)
    decreases |items|
  {
    if |items| > 1 {
      ItemsSlack(items[1..], depth, fmt);
    }
  }

  lemma {:induction false} ItemsLong(items: seq<Value>, depth: nat, fmt: bool)
    ensures ItemsCount(items, depth, fmt) >= 2 * |items|
  {
    if items != [] {
      ItemsLong(items[1..], depth, fmt);
    }
  }

  function Gap(fmt: bool, last: bool): Text {
    if last then [] else if fmt then [COMMA, 0x20] else [COMMA]
  }

  lemma ItemsStep(items: seq<Value>, i: nat, depth: nat, fmt: bool)
    requires i < |items|
    ensures items[i..][0] == items[i] && items[i..][1..] == items[i + 1..]
    ensures ItemsCount(items[i..], depth, fmt)
         == |ValueText(items[i], depth, fmt)| + 2 + (if fmt then 1 else 0) + ItemsCount(items[i + 1..], depth, fmt)
    ensures ItemsFit(items[i..], depth, fmt) <==> Fits(items[i], depth, fmt) && ItemsFit(items[i + 1..], depth, fmt)
    ensures ItemsText(items[i..], depth, fmt)
         == ValueText(items[i], depth, fmt) + Gap(fmt, i == |items| - 1) + ItemsText(items[i + 1..], depth, fmt)
    ensures AllPrintable(items[i..]) ==> Printable(items[i]) && AllPrintable(items[i + 1..])
  {
    hide ValueText, Fits, Printable;
    assert items[i..][1..] == items[i + 1..];
  }

  /** The text of an array put together, if what was allocated for it is enough: it is if and only if the
      length counted did not pass the range of an int. */
  method ComposeArray(items: seq<Value>, entries: seq<array<Byte>>, len: int, depth: nat, fmt: bool)
          returns (r: Printed)
    requires AllPrintable(items) && 0 < |items| < TWO31
    requires |entries| == |items| && forall i :: 0 <= i < |items| ==> Holds(entries[i], ValueText(items[i], depth, fmt))
    requires len == Int32(5 + ItemsCount(items, depth, fmt))
    ensures r.Made? <==> 5 + ItemsCount(items, depth, fmt) < TWO31
    ensures r.Failed? ==> r.fate == FateOf(len)
    ensures r.Made? ==> fresh(r.out) && Holds(r.out, [OPEN_BRACKET] + ItemsText(items, depth, fmt) + [CLOSE_BRACKET])
  {
    hide ItemsText, ValueText, AllPrintable, Printable, ItemsCount;
    ItemsSlack(items, depth, fmt);
    Past(5 + ItemsCount(items, depth, fmt));
    hide Int32;
    if len < 0 {
      return Failed(NoMemory);
    }
    if |ItemsText(items, depth, fmt)| + 3 > len {
      return Failed(Beyond); // the writes below pass the end
    }
    var out := new Byte[len];
    var p := Put(out, 0, OPEN_BRACKET);
    out[p] := 0;
    assert out[..p] == [OPEN_BRACKET];
    p := PutItems(out, p, items, entries, depth, fmt);
    p := Put(out, p, CLOSE_BRACKET);
    p := Put(out, p, 0);
    r := Made(out);
  }

  /** A count out of range becomes negative or too small by 2^32 at least. */
  lemma Past(n: nat)
    ensures if n < TWO31 then Int32(n) == n else Int32(n) < 0 || Int32(n) <= n - 2 * TWO31
  {
    if n >= TWO31 {
      Int32Past(n);
    }
  }

  /** The loop of print_array that writes its entries. */
  method PutItems(out: array<Byte>, p0: nat, ghost items: seq<Value>, entries: seq<array<Byte>>, ghost depth: nat,
          fmt: bool)
    returns (p: nat)
    requires AllPrintable(items) && out !in entries
    requires |entries| == |items| && forall i :: 0 <= i < |items| ==> Holds(entries[i], ValueText(items[i], depth, fmt))
    requires p0 + |ItemsText(items, depth, fmt)| < out.Length
    modifies out
    ensures p == p0 + |ItemsText(items, depth, fmt)| && out[..p] == old(out[..p0]) + ItemsText(items, depth, fmt)
  {
    ItemsEnds(items, depth, fmt);
    hide ItemsText, ValueText, AllPrintable, Printable, Holds;
    p := p0;
    ghost var whole := out[..p] + ItemsText(items, depth, fmt);
    var i := 0;
    while i < |entries|
      invariant 0 <= i <= |items| && AllPrintable(items[i..])
      invariant p + |ItemsText(items[i..], depth, fmt)| == |whole| && p <= out.Length
      invariant out[..p] + ItemsText(items[i..], depth, fmt) == whole
      invariant forall k :: 0 <= k < |items| ==> Holds(entries[k], ValueText(items[k], depth, fmt))
    {
      ItemsStep(items, i, depth, fmt);
      p := PutItem(out, p, entries[i], items[i], depth, fmt, i == |entries| - 1);
      i := i + 1;
    }
  }

  lemma ItemsEnds(items: seq<Value>, depth: nat, fmt: bool)
    ensures items[0..] == items && ItemsText(items[|items|..], depth, fmt) == []
    ensures ItemsCount(items[|items|..], depth, fmt) == 0 && ItemsFit(items[|items|..], depth, fmt)
    ensures AllPrintable(items) ==> AllPrintable(items[0..])
  {}

  method PutItem(out: array<Byte>, p: nat, entry: array<Byte>, ghost v: Value, ghost depth: nat, fmt: bool, last: bool)
          returns (q: nat)
    requires Printable(v) && out != entry && Holds(entry, ValueText(v, depth, fmt))
    requires p + |ValueText(v, depth, fmt)| + |Gap(fmt, last)| < out.Length
    modifies out
    ensures q == p + |ValueText(v, depth, fmt)| + |Gap(fmt, last)|
    ensures out[..q] == old(out[..p]) + ValueText(v, depth, fmt) + Gap(fmt, last)
  {
    hide ValueText;
    ValueNulFree(v, depth, fmt);
    StrCpy(out, p, entry, ValueText(v, depth, fmt));
    var n := StrLen(entry, ValueText(v, depth, fmt));
    q := p + n;
    if !last {
      q := Put(out, q, COMMA);
      if fmt {
        q := Put(out, q, 0x20);
      }
      out[q] := 0;
    }
  }

  // ---------------------------------------------------------------- objects

  method PrintObject(v: Value, depth: nat, fmt: bool) returns (r: Printed)
    requires v.Object? && Printable(v)
    ensures r.Made? <==> Fits(v, depth, fmt)
    ensures r.Made? ==> fresh(r.out) && Holds(r.out, ValueText(v, depth, fmt))
    decreases v.members, 4
  {
    ObjectIs(v, depth, fmt);
    hide ValueText, Fits, MembersText, MembersCount, MembersFit, Tabs, Holds, Printable, MembersPrintable, Int32;
    if v.members == [] {
      r := PrintEmptyObject(depth, fmt);
    } else {
      r := PrintFullObject(v.members, depth + 1, fmt);
    }
  }

  /** print_object from where it allocates space for the names and entries. */
  method PrintFullObject(ms: seq<Member>, depth: nat, fmt: bool) returns (r: Printed)
    requires MembersPrintable(ms) && ms != [] && depth > 0
    ensures r.Made? <==>
              7 + (if fmt then depth else 0) + MembersCount(ms, depth, fmt) < TWO31 && MembersFit(ms, depth, fmt)
    ensures r.Made? ==> fresh(r.out)
    ensures r.Made? ==> Holds(r.out, [OPEN_BRACE] + (if fmt then [NEWLINE] else []) + MembersText(ms, depth, fmt)
                                     + (if fmt then Tabs(depth - 1) else []) + [CLOSE_BRACE])
    decreases ms, 3
  {
    MembersLong(ms, depth, fmt);
    hide ValueText, MembersText, MembersCount, MembersFit, Tabs, Holds, MembersPrintable, AllHeld, Int32;
    var ok := CountEntries(|ms|);
    if !ok {
      return Failed(Beyond);
    }
    var names, entries, len, fate := PrintMembers(ms, depth, fmt);
    if fate.Some? {
      return Failed(fate.value);
    }
    r := ComposeObject(ms, names, entries, len, depth, fmt);
  }

  lemma ObjectIs(v: Value, depth: nat, fmt: bool)
    requires v.Object?
    ensures v.members == [] ==>
              ValueText(v, depth, fmt) == [OPEN_BRACE] + (if fmt then [NEWLINE] + Tabs(depth - 1) else [])
                  + [CLOSE_BRACE]
              && (Fits(v, depth, fmt) <==> (fmt ==> depth + 4 < TWO31))
    ensures v.members != [] ==>
              && ValueText(v, depth, fmt) == [OPEN_BRACE] + (if fmt then [NEWLINE] else [])
                                             + MembersText(v.members, depth + 1, fmt)
                                             + (if fmt then Tabs(depth) else []) + [CLOSE_BRACE]
              && (Fits(v, depth, fmt) <==>
                  7 + (if fmt then depth + 1 else 0) + MembersCount(v.members, depth + 1, fmt) < TWO31
                  && MembersFit(v.members, depth + 1, fmt))
    ensures Printable(v) ==> MembersPrintable(v.members)
  {}

  method PrintEmptyObject(depth: nat, fmt: bool) returns (r: Printed)
    ensures r.Made? <==> (fmt ==> depth + 4 < TWO31)
    ensures r.Made? ==> fresh(r.out) && Holds(r.out,
            [OPEN_BRACE] + (if fmt then [NEWLINE] + Tabs(depth - 1) else []) + [CLOSE_BRACE])
  {
    Past(depth + 4);
    var size := if fmt then Int32(depth + 4) else 3;
    hide Int32;
    if size < 0 {
      return Failed(NoMemory);
    }
    if fmt && |Tabs(depth - 1)| + 4 > size {
      return Failed(Beyond); // the writes below pass the end
    }
    var out := new Byte[size];
    var p := Put(out, 0, OPEN_BRACE);
    ghost var inner := if fmt then [NEWLINE] + Tabs(depth - 1) else [];
    hide Tabs, Holds;
    if fmt {
      p := Put(out, p, NEWLINE);
      p := PutTabs(out, p, depth - 1);
    }
    assert out[..p] == [OPEN_BRACE] + inner;
    p := Put(out, p, CLOSE_BRACE);
    Seal(out, p, [OPEN_BRACE] + inner + [CLOSE_BRACE]);
    r := Made(out);
  }

  lemma MembersStep(ms: seq<Member>, i: nat, depth: nat, fmt: bool)
    requires i < |ms|
    ensures ms[i..][0] == ms[i] && ms[i..][1..] == ms[i + 1..]
    ensures MembersText(ms[i..], depth, fmt) == MemberText(ms[i], depth, fmt, i == |ms| - 1)
            + MembersText(ms[i + 1..], depth, fmt)
    ensures MembersCount(ms[i..], depth, fmt) == MemberCount(ms[i], depth, fmt) + MembersCount(ms[i + 1..], depth, fmt)
    ensures MembersFit(ms[i..], depth, fmt) <==> MemberFits(ms[i], depth, fmt) && MembersFit(ms[i + 1..], depth, fmt)
    ensures MembersPrintable(ms[i..]) ==> NulFree(ms[i].name) && Printable(ms[i].value) && MembersPrintable(ms[i + 1..])
  {
    assert ms[i..][1..] == ms[i + 1..];
    hide MemberText, MemberCount;
  }

  /** What is counted for the members is what is written, and one more. */
  lemma {:induction false} MembersSlack(ms: seq<Member>, depth: nat, fmt: bool)
    requires ms != []
    ensures MembersCount(ms, depth, fmt) == |MembersText(ms, depth, fmt)| + 1
    decreases |ms|
  {
    assert |MemberText(ms[0], depth, fmt, |ms| == 1)| == MemberCount(ms[0], depth, fmt) - (if |ms| == 1 then 1 else 0);
    hide MemberText, MemberCount;
    if |ms| > 1 {
      MembersSlack(ms[1..], depth, fmt);
    }
  }

  lemma {:induction false} MembersLong(ms: seq<Member>, depth: nat, fmt: bool)
    ensures MembersCount(ms, depth, fmt) >= 2 * |ms|
  {
    if ms != [] {
      MembersLong(ms[1..], depth, fmt);
    }
  }

  lemma MembersEnds(ms: seq<Member>, depth: nat, fmt: bool)
    ensures ms[0..] == ms && MembersText(ms[|ms|..], depth, fmt) == []
  {}

  ghost predicate AllHeld(ms: seq<Member>, names: seq<array<Byte>>, entries: seq<array<Byte>>, depth: nat, fmt: bool)
    requires |names| <= |ms| && |entries| <= |ms|
    reads names, entries
  {
    (forall k :: 0 <= k < |names| ==> Holds(names[k], StringText(ms[k].name)))
    && (forall k :: 0 <= k < |entries| ==> Holds(entries[k], ValueText(ms[k].value, depth, fmt)))
  }

  /** Every name and value printed, and the length print_object counts for them; it goes on after a failure. */
  method PrintMembers(ms: seq<Member>, depth: nat, fmt: bool)
    returns (names: seq<array<Byte>>, entries: seq<array<Byte>>, len: int, fate: Option<Fate>)
    requires MembersPrintable(ms)
    ensures fate == None <==> MembersFit(ms, depth, fmt)
    ensures fate == None ==> |names| == |ms| == |entries| && AllHeld(ms, names, entries, depth, fmt)
    ensures forall a :: a in names || a in entries ==> fresh(a)
    ensures fate == None ==> len == Int32(7 + (if fmt then depth else 0) + MembersCount(ms, depth, fmt))
    decreases ms, 2
  {
    MembersEnds(ms, depth, fmt);
    hide MembersText, MemberText, ValueText, StringText, MembersPrintable, Printable, Holds, MemberCount, MemberFits;
    names, entries, fate := [], [], None;
    ghost var count := 7 + (if fmt then depth else 0);
    len := Int32(if fmt then 7 + depth else 7);
    hide Int32;
    var i := 0;
    while i < |ms|
      invariant 0 <= i <= |ms| && MembersPrintable(ms[i..])
      invariant fate == None ==> |names| == i == |entries| && AllHeld(ms, names, entries, depth, fmt)
      invariant forall a :: a in names || a in entries ==> fresh(a)
      invariant MembersFit(ms, depth, fmt) <==> fate == None && MembersFit(ms[i..], depth, fmt)
      invariant fate == None ==> len == Int32(count)
      invariant count + MembersCount(ms[i..], depth, fmt)
                == 7 + (if fmt then depth else 0) + MembersCount(ms, depth, fmt)
    {
      MembersStep(ms, i, depth, fmt);
      Int32Add(count, MemberCount(ms[i], depth, fmt));
      var str, ret, more := PrintMember(ms[i], depth, fmt);
      if str == Failed(Beyond) || ret == Failed(Beyond) {
        fate := Some(Beyond);
        return;
      }
      if str.Made? && ret.Made? {
        if fate == None {
          names, entries := names + [str.out], entries + [ret.out];
        }
        len := Int32(len + more);
      } else {
        fate := Some(NoMemory);
      }
      count := count + MemberCount(ms[i], depth, fmt);
      i := i + 1;
    }
  }

  method PrintMember(m: Member, depth: nat, fmt: bool) returns (str: Printed, ret: Printed, more: nat)
    requires NulFree(m.name) && Printable(m.value)
    ensures str.Made? && ret.Made? <==> MemberFits(m, depth, fmt)
    ensures str.Made? ==> fresh(str.out) && Holds(str.out, StringText(m.name))
    ensures ret.Made? ==> fresh(ret.out) && Holds(ret.out, ValueText(m.value, depth, fmt))
    ensures str.Made? && ret.Made? ==> more == MemberCount(m, depth, fmt)
    decreases m, 1
  {
    str := PrintStringPtr(m.name);
    ret := PrintValue(m.value, depth, fmt);
    more := 0;
    if str.Made? && ret.Made? {
      StringNulFree(m.name);
      ValueNulFree(m.value, depth, fmt);
      var n := StrLen(ret.out, ValueText(m.value, depth, fmt));
      var k := StrLen(str.out, StringText(m.name));
      more := n + k + 2 + (if fmt then 2 + depth else 0);
    }
  }

  /** The text of an object put together, if what was allocated for it is enough. */
  method ComposeObject(ms: seq<Member>, names: seq<array<Byte>>, entries: seq<array<Byte>>, len: int, depth: nat,
          fmt: bool)
    returns (r: Printed)
    requires MembersPrintable(ms) && ms != [] && depth > 0
    requires |names| == |ms| == |entries| && AllHeld(ms, names, entries, depth, fmt)
    requires len == Int32(7 + (if fmt then depth else 0) + MembersCount(ms, depth, fmt))
    ensures r.Made? <==> 7 + (if fmt then depth else 0) + MembersCount(ms, depth, fmt) < TWO31
    ensures r.Failed? ==> r.fate == FateOf(len)
    ensures r.Made? ==> fresh(r.out)
    ensures r.Made? ==> Holds(r.out, [OPEN_BRACE] + (if fmt then [NEWLINE] else []) + MembersText(ms, depth, fmt)
                                     + (if fmt then Tabs(depth - 1) else []) + [CLOSE_BRACE])
  {
    hide MembersText, MemberText, ValueText, StringText, MembersPrintable, Printable, Tabs, MembersCount;
    MembersSlack(ms, depth, fmt);
    Past(7 + (if fmt then depth else 0) + MembersCount(ms, depth, fmt));
    hide Int32;
    if len < 0 {
      return Failed(NoMemory);
    }
    if |MembersText(ms, depth, fmt)| + 3 + (if fmt then depth else 0) > len {
      return Failed(Beyond); // the writes below pass the end
    }
    var out := new Byte[len];
    PutObject(out, ms, names, entries, depth, fmt);
    r := Made(out);
  }

  /** The writing part of print_object. */
  method PutObject(out: array<Byte>, ghost ms: seq<Member>, names: seq<array<Byte>>, entries: seq<array<Byte>>,
          depth: nat, fmt: bool)
    requires MembersPrintable(ms) && depth > 0 && out !in names && out !in entries
    requires |names| == |ms| == |entries| && AllHeld(ms, names, entries, depth, fmt)
    requires |MembersText(ms, depth, fmt)| + 3 + (if fmt then depth else 0) <= out.Length
    modifies out
    ensures Holds(out, [OPEN_BRACE] + (if fmt then [NEWLINE] else []) + MembersText(ms, depth, fmt)
                       + (if fmt then Tabs(depth - 1) else []) + [CLOSE_BRACE])
  {
    hide MembersText, MemberText, ValueText, StringText, MembersPrintable, Printable, Tabs, Holds;
    var p := Put(out, 0, OPEN_BRACE);
    if fmt {
      p := Put(out, p, NEWLINE);
    }
    out[p] := 0;
    assert out[..p] == [OPEN_BRACE] + (if fmt then [NEWLINE] else []);
    p := PutMembers(out, p, ms, names, entries, depth, fmt);
    ghost var body := out[..p];
    ghost var tabs := if fmt then Tabs(depth - 1) else [];
    if fmt {
      p := PutTabs(out, p, depth - 1);
    }
    assert out[..p] == body + tabs;
    p := Put(out, p, CLOSE_BRACE);
    Seal(out, p, body + tabs + [CLOSE_BRACE]);
  }

  /** The loop of print_object that writes its members. */
  method PutMembers(out: array<Byte>, p0: nat, ghost ms: seq<Member>, names: seq<array<Byte>>,
          entries: seq<array<Byte>>, depth: nat, fmt: bool)
    returns (p: nat)
    requires MembersPrintable(ms) && out !in names && out !in entries
    requires |names| == |ms| == |entries| && AllHeld(ms, names, entries, depth, fmt)
    requires p0 + |MembersText(ms, depth, fmt)| < out.Length
    modifies out
    ensures p == p0 + |MembersText(ms, depth, fmt)| && out[..p] == old(out[..p0]) + MembersText(ms, depth, fmt)
  {
    MembersEnds(ms, depth, fmt);
    hide MembersText, MemberText, ValueText, StringText, MembersPrintable, Printable, Holds;
    p := p0;
    ghost var whole := out[..p] + MembersText(ms, depth, fmt);
    var i := 0;
    while i < |names|
      invariant 0 <= i <= |ms| && MembersPrintable(ms[i..])
      invariant p + |MembersText(ms[i..], depth, fmt)| == |whole| && p <= out.Length
      invariant out[..p] + MembersText(ms[i..], depth, fmt) == whole
      invariant AllHeld(ms, names, entries, depth, fmt)
    {
      MembersStep(ms, i, depth, fmt);
      p := PutMember(out, p, names[i], entries[i], ms[i], depth, fmt, i == |names| - 1);
      i := i + 1;
    }
  }

  method PutMember(out: array<Byte>, p: nat, str: array<Byte>, entry: array<Byte>, ghost m: Member, depth: nat,
          fmt: bool, last: bool)
    returns (q: nat)
    requires NulFree(m.name) && Printable(m.value)
    requires out != str && out != entry && Holds(str, StringText(m.name))
             && Holds(entry, ValueText(m.value, depth, fmt))
    requires p + |MemberText(m, depth, fmt, last)| < out.Length
    modifies out
    ensures q == p + |MemberText(m, depth, fmt, last)| && out[..q] == old(out[..p]) + MemberText(m, depth, fmt, last)
  {
    ghost var name, value := StringText(m.name), ValueText(m.value, depth, fmt);
    StringNulFree(m.name);
    ValueNulFree(m.value, depth, fmt);
    MemberParts(m, depth, fmt, last);
    hide MemberText, ValueText, StringText, NamePart, ValuePart, Printable, Holds;
    ghost var before := out[..p];
    q := PutName(out, p, str, name, depth, fmt);
    q := PutEntry(out, q, entry, value, fmt, last);
    JoinParts(before, NamePart(name, depth, fmt), ValuePart(value, fmt, last));
  }

  lemma MemberParts(m: Member, depth: nat, fmt: bool, last: bool)
    ensures MemberText(m, depth, fmt, last)
         == NamePart(StringText(m.name), depth, fmt) + ValuePart(ValueText(m.value, depth, fmt), fmt, last)
  {
    hide ValueText, StringText, Tabs;
  }

  lemma JoinParts(a: Text, b: Text, c: Text)
    ensures a + b + c == a + (b + c)
  {}

  function NamePart(name: Text, depth: nat, fmt: bool): Text {
    (if fmt then Tabs(depth) else []) + name + (if fmt then [COLON, TAB] else [COLON])
  }

  function ValuePart(value: Text, fmt: bool, last: bool): Text {
    value + (if last then [] else [COMMA]) + (if fmt then [NEWLINE] else [])
  }

  method PutName(out: array<Byte>, p: nat, str: array<Byte>, ghost name: Text, depth: nat, fmt: bool) returns (q: nat)
    requires NulFree(name) && out != str && Holds(str, name) && p + |NamePart(name, depth, fmt)| < out.Length
    modifies out
    ensures q == p + |NamePart(name, depth, fmt)| && out[..q] == old(out[..p]) + NamePart(name, depth, fmt)
  {
    hide Tabs;
    q := p;
    if fmt {
      q := PutTabs(out, q, depth);
    }
    StrCpy(out, q, str, name);
    var k := StrLen(str, name);
    q := Put(out, q + k, COLON);
    if fmt {
      q := Put(out, q, TAB);
    }
  }

  method PutEntry(out: array<Byte>, p: nat, entry: array<Byte>, ghost value: Text, fmt: bool, last: bool)
          returns (q: nat)
    requires NulFree(value) && out != entry && Holds(entry, value) && p + |ValuePart(value, fmt, last)| < out.Length
    modifies out
    ensures q == p + |ValuePart(value, fmt, last)| && out[..q] == old(out[..p]) + ValuePart(value, fmt, last)
  {
    StrCpy(out, p, entry, value);
    var n := StrLen(entry, value);
    q := p + n;
    if !last {
      q := Put(out, q, COMMA);
    }
    if fmt {
      q := Put(out, q, NEWLINE);
    }
    out[q] := 0;
  }

  // ---------------------------------------------------------------- entry points

  /** cJSON_Print. */
  method Print(v: Value) returns (r: Printed)
    requires Printable(v)
    ensures r.Made? <==> Fits(v, 0, true)
    ensures r.Made? ==> fresh(r.out) && Holds(r.out, ValueText(v, 0, true)) && NulFree(ValueText(v, 0, true))
  {
    r := PrintValue(v, 0, true);
    ValueNulFree(v, 0, true);
  }

  /** cJSON_PrintUnformatted. */
  method PrintUnformatted(v: Value) returns (r: Printed)
    requires Printable(v)
    ensures r.Made? <==> Fits(v, 0, false)
    ensures r.Made? ==> fresh(r.out) && Holds(r.out, ValueText(v, 0, false)) && NulFree(ValueText(v, 0, false))
  {
    r := PrintValue(v, 0, false);
    ValueNulFree(v, 0, false);
  }
}
