/** What the request-line parser stores of a target: percent escapes as the bytes they stand for, everything else as it
    is, when nothing in it is to be collapsed. */
module UriTarget {
  import opened UriPath

  function Code(c: char): bv8
    requires c < 128 as char
  {
    c as int as bv8
  }

  /** A hexadecimal digit, in either case. */
  function Digit(n: nat, upper: bool): bv8
    requires n < 16
  {
    Code(if upper then "0123456789ABCDEF"[n] else "0123456789abcdef"[n])
  }

  lemma DigitHex(n: nat, upper: bool)
    requires n < 16
    ensures Hex(Digit(n, upper)) == n
  {
    if upper {
      UpperHex(n);
    } else {
      LowerHex(n);
    }
  }

  lemma UpperHex(n: nat)
    requires n < 16
    ensures Hex(Digit(n, true)) == n
  {}

  lemma LowerHex(n: nat)
    requires n < 16
    ensures Hex(Digit(n, false)) == n
  {}

  /** A byte of the target: written as it is, or as a percent sign and two digits. */
  datatype Item = Plain(b: bv8) | Escaped(b: bv8, upper1: bool, upper0: bool) {
    function Text(): seq<bv8> {
      match this
      case Plain(b) => [b]
      case Escaped(b, upper1, upper0) => [Code('%'), Digit(b as nat / 16, upper1), Digit(b as nat % 16, upper0)]
    }
  }

  /** Every byte comes out of its escape, whatever the case of the digits. */
  lemma EscapeDecodes(b: bv8, upper1: bool, upper0: bool)
    ensures Hex(Digit(b as nat / 16, upper1)) >= 0 && Hex(Digit(b as nat % 16, upper0)) >= 0
    ensures Unescape(Digit(b as nat / 16, upper1), Digit(b as nat % 16, upper0)) == b
  {
    DigitHex(b as nat / 16, upper1);
    DigitHex(b as nat % 16, upper0);
    CastBack(b);
    hide Hex, Digit;
  }

  lemma CastBack(b: bv8)
    ensures (b as nat) as bv8 == b
  {}

  // ---------------------------------------------------------------- a target

  function Text(items: seq<Item>): seq<bv8> {
    if items == [] then [] else Text(items[..|items| - 1]) + items[|items| - 1].Text()
  }

  function Decoded(items: seq<Item>): (p: seq<bv8>)
    ensures |p| == |items|
  {
    seq(|items|, i requires 0 <= i < |items| => items[i].b)
  }

  /** An item that ends nothing: no NUL, carriage return or question mark, and a blank or percent sign only escaped. */
  predicate Harmless(item: Item) {
    && item.b != 0 && item.b != Code('\r') && item.b != Code('?')
    && (item.Plain? ==> item.b != Code(' ') && item.b != Code('%'))
  }

  /** A target with nothing to collapse: it begins with a slash, and no slash is before another one or a dot. */
  ghost predicate Straight(items: seq<Item>) {
    && (forall i :: 0 <= i < |items| ==> Harmless(items[i]))
    && (items != [] ==> items[0].b == Code('/'))
    && forall i :: 0 <= i < |items| - 1 && items[i].b == Code('/') ==>
         items[i + 1].b != Code('/') && items[i + 1].b != Code('.')
  }

  /** What is stored of the items so far, behind the last of which the parser is between characters. */
  ghost predicate Holds(u: Uri, p: seq<bv8>, room: nat) {
    && u.phase == InUri && u.stored == p && u.len == |p| && u.room == room && u.ues == NoEscape
    && u.ups == if p != [] && p[|p| - 1] == Code('/') then SeenSlash else Idle
  }

  lemma AssessItem(u: Uri, p: seq<bv8>, room: nat, b: bv8)
    requires Counts(u) && Holds(u, p, room) && room > 0
    requires b != 0 && b != Code('\r') && b != Code('?')
    requires p != [] && p[|p| - 1] == Code('/') ==> b != Code('/') && b != Code('.')
    ensures Holds(Assess(u, b), p + [b], room - 1)
  {}

  lemma PlainStep(u: Uri, b: bv8)
    requires Counts(u) && u.phase == InUri && u.ues == NoEscape && b != Code(' ') && b != Code('%')
    ensures Step(u, b) == Assess(u, b)
  {}

  lemma PercentStep(u: Uri)
    requires Counts(u) && u.phase == InUri && u.ues == NoEscape
    ensures Step(u, Code('%')) == u.(ues := SeenPercent)
  {}

  lemma FirstDigitStep(u: Uri, d: bv8)
    requires Counts(u) && u.phase == InUri && u.ues == SeenPercent && Hex(d) >= 0
    ensures Step(u, d) == u.(ues := SeenPercentH1, stash := d)
  {
    hide Assess;
  }

  lemma SecondDigitStep(u: Uri, d: bv8)
    requires Counts(u) && u.phase == InUri && u.ues == SeenPercentH1 && Hex(d) >= 0 && Hex(u.stash) >= 0
    ensures Step(u, d) == Assess(u.(ues := NoEscape), Unescape(u.stash, d))
  {
    hide Assess, Unescape;
  }

  /** One item in: its byte is stored. */
  lemma StepItem(u: Uri, s: seq<bv8>, p: seq<bv8>, room: nat, item: Item)
    requires Counts(u) && Holds(Run(u, s), p, room) && room > 0 && Harmless(item)
    requires p != [] && p[|p| - 1] == Code('/') ==> item.b != Code('/') && item.b != Code('.')
    ensures Holds(Run(u, s + item.Text()), p + [item.b], room - 1)
  {
    hide Assess, Hex, Digit, Unescape, Step, Run;
    var u0 := Run(u, s);
    match item
    case Plain(b) =>
      RunNext(u, s, b);
      PlainStep(u0, b);
      AssessItem(u0, p, room, b);
    case Escaped(b, upper1, upper0) =>
      var d1, d0 := Digit(b as nat / 16, upper1), Digit(b as nat % 16, upper0);
      EscapeDecodes(b, upper1, upper0);
      OneByOne(s, Code('%'), d1, d0);
      RunNext(u, s, Code('%'));
      RunNext(u, s + [Code('%')], d1);
      RunNext(u, s + [Code('%')] + [d1], d0);
      PercentStep(u0);
      FirstDigitStep(u0.(ues := SeenPercent), d1);
      SecondDigitStep(u0.(ues := SeenPercentH1, stash := d1), d0);
      AssessItem(u0.(stash := d1), p, room, b);
  }

  lemma OneByOne(s: seq<bv8>, a: bv8, b: bv8, c: bv8)
    ensures s + [a, b, c] == s + [a] + [b] + [c]
  {}

  lemma StraightFront(items: seq<Item>)
    requires Straight(items) && items != []
    ensures var n, item := |items| - 1, items[|items| - 1];
            var p := Decoded(items[..n]);
            && Straight(items[..n]) && Harmless(item) && Decoded(items) == p + [item.b]
            && (p != [] && p[|p| - 1] == Code('/') ==> item.b != Code('/') && item.b != Code('.'))
  {
    hide Harmless;
    var n := |items| - 1;
    assert n > 0 ==> Decoded(items[..n])[n - 1] == items[n - 1].b;
  }

  lemma TextNext(items: seq<Item>)
    requires items != []
    ensures Text(items) == Text(items[..|items| - 1]) + items[|items| - 1].Text()
  {}

  /** A straight target, any of its bytes escaped, is stored as the bytes it stands for. */
  lemma {:induction false} TargetStored(room: nat, items: seq<Item>)
    requires Straight(items) && |items| <= room
    ensures Holds(Run(Start(room), Text(items)), Decoded(items), room - |items|)
  {
    if items != [] {
      hide *;
      var n := |items| - 1;
      StraightFront(items);
      TargetStored(room, items[..n]);
      StartCounts(room);
      TextNext(items);
      StepItem(Start(room), Text(items[..n]), Decoded(items[..n]), room - n, items[n]);
    }
  }

  lemma StartCounts(room: nat)
    ensures Counts(Start(room))
  {}

  lemma BlankStep(u: Uri, p: seq<bv8>, room: nat)
    requires Counts(u) && Holds(u, p, room) && p != [] && room > 0
    ensures var u' := Step(u, Code(' ')); u'.phase == Skipping && Path(u') == p && u'.stored == p + [0]
  {
    hide Assess;
    assert (p + [0])[..|p|] == p;
  }

  /** The blank behind it ends it, and leaves that as its path. */
  lemma TargetEnds(room: nat, items: seq<Item>)
    requires Straight(items) && items != [] && |items| < room
    ensures var u := Run(Start(room), Text(items) + [Code(' ')]);
            u.phase == Skipping && Path(u) == Decoded(items) && u.stored == Decoded(items) + [0]
  {
    hide *;
    TargetStored(room, items);
    StartCounts(room);
    RunNext(Start(room), Text(items), Code(' '));
    BlankStep(Run(Start(room), Text(items)), Decoded(items), room - |items|);
  }
}
