/** The request-line part of libwebsocket_parse (parsers.c): percent decoding and path collapsing,
    one character at a time, into the header store. */
module UriPath {

  const CAPACITY: nat := 1024
  const SLASH: bv8 := 0x2f
  const DOT: bv8 := 0x2e
  const SPACE: bv8 := 0x20
  const PERCENT: bv8 := 0x25
  const QUESTION: bv8 := 0x3f
  const CR: bv8 := 0x0d

  datatype PathState = Idle | SeenSlash | SeenSlashDot | SeenSlashDotDot
  datatype EscState = NoEscape | SeenPercent | SeenPercentH1

  /** Where the line is: in the target, after its '?', after the space or the end of line that ends it,
      dropped for want of room, or past the end of the store, where the source's write of the seal is
      not checked. */
  datatype Phase = InUri | Arguments | Skipping | SawCr | Dropped | Overrun

  /** `stored` is what the fragment has in the store, `len` the fragment's count of it, which leaves
      NULs out, and `room` the space behind it. */
  datatype Uri = Uri(phase: Phase, stored: seq<bv8>, len: nat, room: nat, ups: PathState, ues: EscState, stash: bv8)

  /** The count never exceeds what is stored. */
  predicate Counts(u: Uri) { u.len <= |u.stored| }

  // ---------------------------------------------------------------- one character

  function Hex(c: bv8): (h: int)
    ensures -1 <= h < 16
  {
    if 0x30 <= c <= 0x39 then (c - 0x30) as int
    else if 0x61 <= c <= 0x66 then (c - 0x61) as int + 10
    else if 0x41 <= c <= 0x46 then (c - 0x41) as int + 10
    else -1
  }

  function Unescape(h1: bv8, h0: bv8): bv8
    requires Hex(h1) >= 0 && Hex(h0) >= 0
  {
    (Hex(h1) * 16 + Hex(h0)) as bv8
  }

  /** issue_char where its result is looked at. */
  function Issue(u: Uri, c: bv8): (u': Uri)
    ensures Counts(u) ==> Counts(u')
  {
    if u.room == 0 then u.(phase := Dropped) else IssueLax(u, c)
  }

  /** issue_char where its result is ignored. */
  function IssueLax(u: Uri, c: bv8): (u': Uri)
    ensures Counts(u) ==> Counts(u')
  {
    if u.room == 0 then u
    else u.(stored := u.stored + [c], len := if c != 0 then u.len + 1 else u.len, room := u.room - 1)
  }

  /** Giving back one character. */
  function Cut(u: Uri): (u': Uri)
    requires Counts(u) && u.len > 0
    ensures Counts(u')
  {
    u.(stored := u.stored[..|u.stored| - 1], len := u.len - 1, room := u.room + 1)
  }

  /** The loop that backs up one directory level: it gives back one character, then more until it
      has given back a slash or only one is left. */
  function BackLoop(u: Uri): (u': Uri)
    requires Counts(u)
    ensures Counts(u')
    decreases u.len
  {
    if u.len == 0 then u else if GoesOn(u) then BackLoop(Cut(u)) else Cut(u)
  }

  /** After giving back the last character the loop goes on. */
  predicate GoesOn(u: Uri)
    requires Counts(u) && u.len > 0
  {
    u.len > 2 && u.stored[|u.stored| - 1] != SLASH
  }

  lemma BackLoopIs(u: Uri)
    requires Counts(u) && u.len > 0
    ensures BackLoop(u) == if GoesOn(u) then BackLoop(Cut(u)) else Cut(u)
  {
    hide Cut, GoesOn;
  }

  function BackUp(u: Uri): (u': Uri)
    requires Counts(u)
    ensures Counts(u')
  {
    if u.len > 2 then
      BackLoop(Cut(u))
    else u
  }

  /** From `check_eol`: the end of the line, the start of the arguments, or a character to keep. */
  function Keep(u: Uri, c: bv8): (u': Uri)
    ensures Counts(u) ==> Counts(u')
  {
    if c == CR then Issue(u.(phase := SawCr), 0)
    else if c == QUESTION then
      if u.room == 0 then u.(phase := Overrun) else IssueLax(u, 0).(phase := Arguments)
    else Issue(u, c)
  }

  /** From the path states on. */
  function Assess(u: Uri, c: bv8): (u': Uri)
    requires Counts(u)
    ensures Counts(u')
  {
    match u.ups
    case Idle => Keep(if c == SLASH then u.(ups := SeenSlash) else u, c)
    case SeenSlash =>
      if c == SLASH then u
      else if c == DOT then u.(ups := SeenSlashDot)
      else Keep(u.(ups := Idle), c)
    case SeenSlashDot =>
      if c == DOT then BackUp(u).(ups := SeenSlashDotDot)
      else if c == SLASH then u.(ups := SeenSlash)
      else Keep(IssueLax(u.(ups := Idle), DOT), c)
    case SeenSlashDotDot =>
      if c == DOT || c == SLASH then u else Keep(u.(ups := SeenSlash), c)
  }

  /** One character of the request line after the method. */
  function Step(u: Uri, c: bv8): (u': Uri)
    requires Counts(u)
    ensures Counts(u')
  {
    if u.phase != InUri then u
    else if u.len == 0 && c == SPACE then u
    else if c == SPACE then Issue(u.(phase := Skipping), 0)
    else
      match u.ues
      case NoEscape => if c == PERCENT then u.(ues := SeenPercent) else Assess(u, c)
      case SeenPercent =>
        if Hex(c) >= 0 then u.(stash := c, ues := SeenPercentH1)
        else
          var u' := Issue(u, PERCENT);
          if u'.phase == Dropped then u' else Assess(u'.(ues := NoEscape), c)
      case SeenPercentH1 =>
        if Hex(c) >= 0 && Hex(u.stash) >= 0 then Assess(u.(ues := NoEscape), Unescape(u.stash, c))
        else
          var u' := Assess(IssueLax(u, PERCENT).(ues := NoEscape), u.stash);
          if u'.phase == Dropped then u' else Assess(u', c)
  }

  // ---------------------------------------------------------------- the path

  /** What the fragment's count covers. */
  function Path(u: Uri): seq<bv8>
    requires Counts(u)
  {
    u.stored[..u.len]
  }

  /** The segment after the slash at `i` is not empty unless it is the last, and not "." or "..". */
  ghost predicate SegmentOk(p: seq<bv8>, i: nat)
    requires i < |p|
  {
    i + 1 == |p| ||
    (p[i + 1] != SLASH &&
     (p[i + 1] == DOT ==> i + 2 < |p| && p[i + 2] != SLASH &&
                          (p[i + 2] == DOT ==> i + 3 < |p| && p[i + 3] != SLASH)))
  }

  ghost predicate Clean(p: seq<bv8>) {
    p != [] && p[0] == SLASH && forall i :: 0 <= i < |p| && p[i] == SLASH ==> SegmentOk(p, i)
  }

  lemma AppendOther(p: seq<bv8>, c: bv8)
    requires Clean(p) && c != SLASH && (c == DOT ==> p[|p| - 1] != SLASH)
    ensures Clean(p + [c])
  {
    forall i | 0 <= i < |p + [c]| && (p + [c])[i] == SLASH ensures SegmentOk(p + [c], i) {
      assert SegmentOk(p, i);
    }
  }

  lemma AppendSlash(p: seq<bv8>)
    requires Clean(p) && p[|p| - 1] != SLASH
    ensures Clean(p + [SLASH])
  {
    forall i | 0 <= i < |p| + 1 && (p + [SLASH])[i] == SLASH ensures SegmentOk(p + [SLASH], i) {
      if i < |p| {
        assert SegmentOk(p, i);
      }
    }
  }

  lemma AppendDotOther(p: seq<bv8>, c: bv8)
    requires Clean(p) && c != SLASH && c != DOT
    ensures Clean(p + [DOT] + [c])
  {
    var q := p + [DOT] + [c];
    forall i | 0 <= i < |q| && q[i] == SLASH ensures SegmentOk(q, i) {
      assert SegmentOk(p, i);
    }
  }

  /** Cutting just before a slash, or down to the first slash. */
  lemma CutClean(p: seq<bv8>, n: nat)
    requires Clean(p) && 0 < n <= |p| && (n == 1 || n == |p| || p[n] == SLASH)
    ensures Clean(p[..n])
  {
    forall i | 0 <= i < n && p[i] == SLASH ensures SegmentOk(p[..n], i) {
      assert SegmentOk(p, i);
    }
  }

  /** What is promised of a stored path: it begins with a slash, has no two slashes in a row and no
      segment "..". */
  ghost predicate Safe(p: seq<bv8>) {
    && p != [] && p[0] == SLASH
    && (forall i :: 0 <= i < |p| - 1 ==> !(p[i] == SLASH && p[i + 1] == SLASH))
    && (forall i :: 0 <= i < |p| - 2 ==> !(p[i] == SLASH && DotDot(p, i + 1)))
  }

  /** A segment ".." at `i`. */
  ghost predicate DotDot(p: seq<bv8>, i: nat)
    requires i + 1 < |p|
  {
    p[i] == DOT && p[i + 1] == DOT && (i + 2 == |p| || p[i + 2] == SLASH)
  }

  lemma CleanSafe(p: seq<bv8>)
    requires Clean(p)
    ensures Safe(p) && Safe(p + [DOT])
  {
    assert forall i :: 0 <= i < |p| && p[i] == SLASH ==> SegmentOk(p, i);
    var q := p + [DOT];
    forall i | 0 <= i < |q| - 1 && q[i] == SLASH ensures q[i + 1] != SLASH && (i < |q| - 2 ==> !DotDot(q, i + 1)) {
      assert SegmentOk(p, i);
    }
    forall i | 0 <= i < |p| - 1 && p[i] == SLASH ensures p[i + 1] != SLASH && (i < |p| - 2 ==> !DotDot(p, i + 1)) {
      assert SegmentOk(p, i);
    }
  }

  /** While the target is coming in: nothing but the path is stored, it is clean, and it does not end
      in a slash unless the path state knows. */
  ghost predicate InPath(u: Uri) {
    && u.phase == InUri && u.len == |u.stored| && Clean(u.stored)
    && (u.ups == Idle ==> u.stored[|u.stored| - 1] != SLASH)
  }

  /** The target is still coming in, or what is stored of it is safe. */
  ghost predicate Kept(u: Uri) {
    Counts(u) && if u.phase == InUri then InPath(u) else Safe(Path(u))
  }

  lemma KeepKeeps(u: Uri, c: bv8)
    requires u.phase == InUri && u.len == |u.stored| && Clean(u.stored) && c != 0
    requires if c == SLASH then u.ups == SeenSlash && u.stored[|u.stored| - 1] != SLASH
             else if c == DOT then u.ups == Idle && u.stored[|u.stored| - 1] != SLASH else true
    ensures Kept(Keep(u, c))
  {
    CleanSafe(u.stored);
    assert u.stored[..u.len] == u.stored;
    assert (u.stored + [0])[..u.len] == u.stored;
    if c == SLASH {
      AppendSlash(u.stored);
    } else {
      AppendOther(u.stored, c);
    }
  }

  /** The dot that was held back after a slash, and the character that showed it to be a name's. */
  lemma KeepDotKeeps(u: Uri, c: bv8)
    requires u.phase == InUri && u.len == |u.stored| && Clean(u.stored) && c != 0 && c != SLASH && c != DOT
    ensures Kept(Keep(IssueLax(u, DOT), c))
  {
    var p := u.stored;
    CleanSafe(p);
    AppendDotOther(p, c);
    assert p[..u.len] == p && (p + [DOT])[..u.len + 1] == p + [DOT];
    assert (p + [DOT] + [0])[..u.len + 1] == p + [DOT] && (p + [0])[..u.len] == p;
    assert (p + [DOT] + [c])[..u.len + 2] == p + [DOT] + [c];
  }

  lemma {:induction false} BackLoopCuts(u: Uri)
    requires u.len == |u.stored| > 1
    ensures var u', n := BackLoop(u), |BackLoop(u).stored|;
            && 0 < n < |u.stored| && u'.stored == u.stored[..n] && u'.len == n
            && (n == 1 || u.stored[n] == SLASH) && u'.phase == u.phase
    decreases u.len
  {
    if GoesOn(u) {
      BackLoopCuts(Cut(u));
    }
  }

  /** Backing up never removes the leading slash and leaves a clean path. */
  lemma BackUpKeeps(u: Uri)
    requires u.len == |u.stored| && Clean(u.stored)
    ensures var u' := BackUp(u); u'.len == |u'.stored| && Clean(u'.stored) && u'.phase == u.phase
  {
    if u.len > 2 {
      var u1 := Cut(u);
      BackLoopCuts(u1);
      var n := |BackLoop(u1).stored|;
      assert u1.stored[..n] == u.stored[..n];
      CutClean(u.stored, n);
    }
  }

  lemma AssessKeeps(u: Uri, c: bv8)
    requires InPath(u) && c != 0
    ensures Kept(Assess(u, c))
  {
    hide Keep, IssueLax, BackUp;
    match u.ups
    case Idle => KeepKeeps(if c == SLASH then u.(ups := SeenSlash) else u, c);
    case SeenSlash => if c != SLASH && c != DOT { KeepKeeps(u.(ups := Idle), c); }
    case SeenSlashDot =>
      if c == DOT { BackUpKeeps(u); }
      else if c != SLASH { KeepDotKeeps(u.(ups := Idle), c); }
    case SeenSlashDotDot => if c != DOT && c != SLASH { KeepKeeps(u.(ups := SeenSlash), c); }
  }

  /** The character does not put a NUL into the path, neither itself nor as an escape. */
  predicate NoNul(u: Uri, c: bv8) {
    c != 0 && (u.ues == SeenPercentH1 && Hex(u.stash) >= 0 && Hex(c) >= 0 ==> Unescape(u.stash, c) != 0)
  }

  ghost predicate StashOk(u: Uri) { u.ues == SeenPercentH1 ==> Hex(u.stash) >= 0 }

  lemma StepStash(u: Uri, c: bv8)
    requires Counts(u) && StashOk(u)
    ensures StashOk(Step(u, c))
  {
    hide Hex, Unescape;
    AssessEscape(u.(ues := NoEscape), c);
    if u.ues == SeenPercentH1 && Hex(c) >= 0 && Hex(u.stash) >= 0 {
      AssessEscape(u.(ues := NoEscape), Unescape(u.stash, c));
    }
    var u1, u2 := Issue(u, PERCENT).(ues := NoEscape), IssueLax(u, PERCENT).(ues := NoEscape);
    AssessEscape(u1, c);
    AssessEscape(u2, u.stash);
    AssessEscape(Assess(u2, u.stash), c);
  }

  lemma AssessEscape(u: Uri, c: bv8)
    requires Counts(u) && u.ues == NoEscape
    ensures Assess(u, c).ues == NoEscape
  {
    if u.len > 2 {
      BackLoopEscape(Cut(u));
    }
  }

  lemma {:induction false} BackLoopEscape(u: Uri)
    requires Counts(u)
    ensures BackLoop(u).ues == u.ues
    decreases u.len
  {
    if u.len > 0 {
      BackLoopEscape(Cut(u));
    }
  }

  /** A percent sign that turned out not to begin an escape. */
  lemma PercentKeeps(u: Uri)
    requires InPath(u)
    ensures Kept(Issue(u, PERCENT).(ues := NoEscape)) && InPath(IssueLax(u, PERCENT).(ues := NoEscape))
  {
    AppendOther(u.stored, PERCENT);
    CleanSafe(u.stored);
    hide Clean, Safe;
    var p := u.stored;
    assert p[..u.len] == p;
    if u.room > 0 {
      var u' := IssueLax(u, PERCENT).(ues := NoEscape);
      assert u'.stored == p + [PERCENT] && u'.len == |p| + 1 && u'.phase == InUri;
      assert u'.stored[|u'.stored| - 1] == PERCENT;
    }
  }

  /** Every character of the target keeps the stored path clean while it is coming in, and safe
      however it ends. */
  lemma StepKeeps(u: Uri, c: bv8)
    requires InPath(u) && StashOk(u) && NoNul(u, c)
    ensures Kept(Step(u, c))
  {
    SpaceKeeps(u);
    PercentKeeps(u);
    KeptAnyEscape(Issue(u, PERCENT), NoEscape);
    InPathKept(u);
    PathNotEmpty(u);
    var same := u.(ues := NoEscape);
    assert InPath(same);
    assert InPath(u.(ues := SeenPercent)) && InPath(u.(ues := SeenPercentH1, stash := c));
    hide Assess, Clean, Safe, Hex, Unescape, Issue, IssueLax, InPath;
    if c == SPACE {
    } else if u.ues == NoEscape {
      if c != PERCENT { AssessKeeps(u, c); }
    } else if u.ues == SeenPercent {
      var u1 := Issue(u, PERCENT).(ues := NoEscape);
      if u1.phase == InUri { AssessKeeps(u1, c); }
    } else if Hex(c) >= 0 {
      AssessKeeps(same, Unescape(u.stash, c));
    } else {
      GiveBackKeeps(u, c);
    }
  }

  lemma PathNotEmpty(u: Uri)
    requires InPath(u)
    ensures u.len > 0 && u.phase == InUri
  {}

  /** The space that ends the target. */
  lemma SpaceKeeps(u: Uri)
    requires InPath(u)
    ensures Kept(Issue(u.(phase := Skipping), 0)) && Issue(u.(phase := Skipping), 0).phase != InUri
  {
    CleanSafe(u.stored);
    hide Clean, Safe;
    assert u.stored[..u.len] == u.stored && (u.stored + [0])[..u.len] == u.stored;
  }

  lemma KeptAnyEscape(u: Uri, e: EscState)
    requires Counts(u)
    ensures Kept(u.(ues := e)) <==> Kept(u)
  {
    hide Clean, Safe;
  }

  /** A percent sign and a digit that turned out not to begin an escape. */
  lemma GiveBackKeeps(u: Uri, c: bv8)
    requires InPath(u) && Hex(u.stash) >= 0 && c != 0
    ensures var u3 := Assess(IssueLax(u, PERCENT).(ues := NoEscape), u.stash);
            Kept(if u3.phase == Dropped then u3 else Assess(u3, c))
  {
    PercentKeeps(u);
    StashNotNul(u);
    var u2 := IssueLax(u, PERCENT).(ues := NoEscape);
    StashPhase(u2, u.stash);
    hide Assess, Clean, Safe, Hex;
    AssessKeeps(u2, u.stash);
    var u3 := Assess(u2, u.stash);
    if u3.phase == InUri {
      AssessKeeps(u3, c);
    }
  }

  lemma StashNotNul(u: Uri)
    requires Hex(u.stash) >= 0
    ensures u.stash != 0
  {}

  /** A hexadecimal digit does not end the target. */
  lemma StashPhase(u: Uri, c: bv8)
    requires InPath(u) && Hex(c) >= 0
    ensures Assess(u, c).phase in {InUri, Dropped}
  {
    if u.len > 2 {
      BackUpKeeps(u);
    }
  }

  // ---------------------------------------------------------------- runs

  /** The start of the target, with `room` bytes left in the store. */
  function Start(room: nat): Uri { Uri(InUri, [], 0, room, Idle, NoEscape, 0) }

  function Run(u: Uri, s: seq<bv8>): (u': Uri)
    requires Counts(u)
    ensures Counts(u')
  {
    if s == [] then u else Step(Run(u, s[..|s| - 1]), s[|s| - 1])
  }

  /** No NUL gets into the path at any character. */
  predicate NoNulRun(u: Uri, s: seq<bv8>)
    requires Counts(u)
  {
    s == [] || (NoNulRun(u, s[..|s| - 1]) && NoNul(Run(u, s[..|s| - 1]), s[|s| - 1]))
  }

  lemma {:induction false} RunKeeps(u: Uri, s: seq<bv8>)
    requires Counts(u) && InPath(u) && StashOk(u) && NoNulRun(u, s)
    ensures Kept(Run(u, s)) && StashOk(Run(u, s))
  {
    hide Step, NoNul, StashOk, InPath, Safe;
    if s != [] {
      var t, c := s[..|s| - 1], s[|s| - 1];
      RunKeeps(u, t);
      StepStash(Run(u, t), c);
      if Run(u, t).phase == InUri {
        StepKeeps(Run(u, t), c);
      } else {
        EndStays(Run(u, t), c);
      }
    } else {
      InPathKept(u);
    }
  }

  lemma InPathKept(u: Uri)
    requires InPath(u)
    ensures Kept(u)
  {}

  lemma EndStays(u: Uri, c: bv8)
    requires Counts(u) && u.phase != InUri
    ensures Step(u, c) == u
  {}

  /** A dot held back after a slash is written before the character behind it. */
  function HeldDots(u: Uri): nat { if u.ups == SeenSlashDot then 1 else 0 }

  /** The digit behind a percent sign that begins no escape, written before the character behind it. */
  lemma AssessDigit(u: Uri, c: bv8)
    requires Counts(u) && u.phase == InUri && Hex(c) >= 0
    ensures var u' := Assess(u, c);
            if u.room <= HeldDots(u) then u'.phase == Dropped
            else u'.phase == InUri && u'.room == u.room - HeldDots(u) - 1 && HeldDots(u') == 0
  {}

  // ---------------------------------------------------------------- exactly which targets are safe

  /** The first character of a target that reaches the path states: blanks in front do not, and an
      escape does as the character it stands for. */
  function First(s: seq<bv8>, ues: EscState, stash: bv8): Lead
    requires ues == SeenPercentH1 ==> Hex(stash) >= 0
  {
    if s == [] then Nothing
    else if s[0] == SPACE then First(s[1..], ues, stash)
    else
      match ues
      case NoEscape => if s[0] == PERCENT then First(s[1..], SeenPercent, stash) else Char(s[0])
      case SeenPercent => if Hex(s[0]) >= 0 then First(s[1..], SeenPercentH1, s[0]) else Char(PERCENT)
      case SeenPercentH1 => Char(if Hex(s[0]) >= 0 then Unescape(stash, s[0]) else PERCENT)
  }

  datatype Lead = Nothing | Char(c: bv8)

  /** Nothing has reached the path states. */
  predicate Blank(u: Uri) { u.phase == InUri && u.stored == [] && u.len == 0 && u.room > 0 && u.ups == Idle }

  /** The path is empty for good, or begins with something other than a slash. */
  ghost predicate Astray(u: Uri) {
    && Counts(u) && (u.phase == InUri ==> u.len == |u.stored| > 0)
    && (u.len == 0 || u.stored[0] != SLASH)
  }

  lemma KeepAstray(u: Uri, c: bv8)
    requires Astray(u) && u.phase == InUri && c != 0
    ensures Astray(Keep(u, c))
  {}

  /** Backing up does not give back the first character. */
  lemma BackUpAstray(u: Uri)
    requires Astray(u) && u.phase == InUri
    ensures Astray(BackUp(u)) && BackUp(u).phase == InUri
  {
    if u.len > 2 {
      BackLoopCuts(Cut(u));
    }
  }

  lemma AssessAstray(u: Uri, c: bv8)
    requires Astray(u) && u.phase == InUri && c != 0
    ensures Astray(Assess(u, c))
  {
    hide Keep, BackUp;
    match u.ups
    case Idle => KeepAstray(if c == SLASH then u.(ups := SeenSlash) else u, c);
    case SeenSlash => if c != SLASH && c != DOT { KeepAstray(u.(ups := Idle), c); }
    case SeenSlashDot =>
      if c == DOT { BackUpAstray(u); }
      else if c != SLASH { KeepAstray(IssueLax(u.(ups := Idle), DOT), c); }
    case SeenSlashDotDot => if c != DOT && c != SLASH { KeepAstray(u.(ups := SeenSlash), c); }
  }

  lemma StashNotNulIf(u: Uri)
    requires StashOk(u)
    ensures u.ues == SeenPercentH1 ==> Hex(u.stash) >= 0 && u.stash != 0
  {}

  lemma PercentAstray(u: Uri)
    requires Astray(u) && u.phase == InUri
    ensures Astray(Issue(u, PERCENT)) && Issue(u, PERCENT).phase in {InUri, Dropped}
    ensures Astray(Issue(u, PERCENT).(ues := NoEscape)) && Astray(IssueLax(u, PERCENT).(ues := NoEscape))
    ensures IssueLax(u, PERCENT).phase == InUri
  {}

  lemma StepAstray(u: Uri, c: bv8)
    requires Astray(u) && StashOk(u) && NoNul(u, c)
    ensures Astray(Step(u, c))
  {
    if u.phase != InUri || c == SPACE { return; }
    PercentAstray(u);
    StashNotNulIf(u);
    assert Astray(u.(ues := NoEscape)) && Astray(u.(ues := SeenPercent));
    assert Astray(u.(stash := c, ues := SeenPercentH1));
    hide Assess, Hex, Unescape, Issue, IssueLax, Astray;
    if u.ues == NoEscape {
      if c != PERCENT { AssessAstray(u, c); }
    } else if u.ues == SeenPercent {
      var u1 := Issue(u, PERCENT).(ues := NoEscape);
      if u1.phase == InUri { AssessAstray(u1, c); }
    } else if Hex(c) >= 0 {
      AssessAstray(u.(ues := NoEscape), Unescape(u.stash, c));
    } else {
      AstrayGivenBack(u, c);
    }
  }

  /** A percent sign and a digit that turned out not to begin an escape. */
  lemma AstrayGivenBack(u: Uri, c: bv8)
    requires Astray(IssueLax(u, PERCENT).(ues := NoEscape)) && u.phase == InUri && c != 0
    requires Hex(u.stash) >= 0
    ensures var u3 := Assess(IssueLax(u, PERCENT).(ues := NoEscape), u.stash);
            Astray(if u3.phase == Dropped then u3 else Assess(u3, c))
  {
    var u2 := IssueLax(u, PERCENT).(ues := NoEscape);
    StashNotNul(u);
    AssessDigit(u2, u.stash);
    hide Assess, Hex;
    AssessAstray(u2, u.stash);
    var u3 := Assess(u2, u.stash);
    if u3.phase == InUri { AssessAstray(u3, c); }
  }

  lemma {:induction false} RunAstray(u: Uri, s: seq<bv8>)
    requires Counts(u) && Astray(u) && StashOk(u) && NoNulRun(u, s)
    ensures Astray(Run(u, s)) && StashOk(Run(u, s))
  {
    hide Step, NoNul, StashOk, Astray;
    if s != [] {
      var t, c := s[..|s| - 1], s[|s| - 1];
      RunAstray(u, t);
      StepStash(Run(u, t), c);
      StepAstray(Run(u, t), c);
    }
  }

  lemma {:induction false} RunFirst(u: Uri, s: seq<bv8>)
    requires Counts(u) && s != []
    ensures Run(u, s) == Run(Step(u, s[0]), s[1..])
    ensures NoNulRun(u, s) <==> NoNul(u, s[0]) && NoNulRun(Step(u, s[0]), s[1..])
  {
    hide Step, NoNul;
    var n := |s| - 1;
    assert Run(u, []) == u;
    if n == 0 {
      assert s[..0] == [] && s[1..] == [] && Run(Step(u, s[0]), []) == Step(u, s[0]);
    } else {
      RunFirst(u, s[..n]);
      assert s[..n][1..] == s[1..][..n - 1];
    }
  }

  /** What the first character that reaches the path states makes of a target of which nothing is stored yet. */
  lemma StepFirst(u: Uri, c: bv8)
    requires Blank(u) && StashOk(u) && NoNul(u, c)
    ensures var u', lead := Step(u, c), First([c], u.ues, u.stash);
            match lead
            case Nothing => Blank(u')
            case Char(first) => if first == SLASH then InPath(u') else Astray(u')
  {
    assert [c][1..] == [];
    var same := u.(ues := NoEscape);
    if c != SPACE && u.ues == SeenPercent && Hex(c) < 0 {
      AssessAstray(Issue(u, PERCENT).(ues := NoEscape), c);
    } else if c != SPACE && u.ues == SeenPercentH1 && Hex(c) < 0 {
      assert Astray(IssueLax(u, PERCENT).(ues := NoEscape));
      AstrayGivenBack(u, c);
    } else if c != SPACE && u.ues != SeenPercent {
      AssessFirst(same, if u.ues == NoEscape then c else Unescape(u.stash, c));
    }
  }

  lemma AssessFirst(u: Uri, c: bv8)
    requires Blank(u) && c != 0
    ensures if c == SLASH then InPath(Assess(u, c)) else Astray(Assess(u, c))
  {
    if c == SLASH {
      assert [] + [c] == [SLASH] && Clean([SLASH]);
    }
  }

  /** Once a first character has been stored, or has ended the target, it decides. */
  lemma Settled(u: Uri, first: bv8, t: seq<bv8>)
    requires if first == SLASH then InPath(u) else Astray(u)
    requires Counts(u) && StashOk(u) && NoNulRun(u, t)
    ensures Safe(Path(Run(u, t))) <==> first == SLASH
  {
    hide NoNulRun, Run, Path, Safe, Kept, InPath, Astray, StashOk;
    if first == SLASH {
      RunKeeps(u, t);
      KeptSafe(Run(u, t));
    } else {
      RunAstray(u, t);
      AstrayUnsafe(Run(u, t));
    }
  }

  lemma NothingYet(u: Uri)
    requires Blank(u) && StashOk(u)
    ensures !Safe(Path(Run(u, []))) && First([], u.ues, u.stash) == Nothing
  {}

  lemma {:induction false} FirstDecides(u: Uri, s: seq<bv8>)
    requires Blank(u) && Counts(u) && StashOk(u) && NoNulRun(u, s)
    ensures Safe(Path(Run(u, s))) <==> First(s, u.ues, u.stash) == Char(SLASH)
    decreases |s|
  {
    assert u.ues == SeenPercentH1 ==> Hex(u.stash) >= 0;
    hide *;
    if s == [] {
      NothingYet(u);
      return;
    }
    RunFirst(u, s);
    StepFirst(u, s[0]);
    FirstOfOne(u, s);
    var u', lead := Step(u, s[0]), First([s[0]], u.ues, u.stash);
    match lead
    case Nothing => FirstDecides(u', s[1..]);
    case Char(first) => Settled(u', first, s[1..]);
  }

  lemma FirstOfOne(u: Uri, s: seq<bv8>)
    requires Blank(u) && StashOk(u) && s != []
    ensures var u', lead := Step(u, s[0]), First([s[0]], u.ues, u.stash);
            && StashOk(u')
            && First(s, u.ues, u.stash) == if lead == Nothing then First(s[1..], u'.ues, u'.stash) else lead
  {
    StepStash(u, s[0]);
    assert [s[0]][1..] == [];
  }

  lemma KeptSafe(u: Uri)
    requires Kept(u)
    ensures Safe(Path(u))
  {
    if u.phase == InUri {
      CleanSafe(u.stored);
      assert Path(u) == u.stored;
    }
  }

  lemma AstrayUnsafe(u: Uri)
    requires Astray(u)
    ensures !Safe(Path(u))
  {}

  /** At every point of a request line what is stored of the path is safe, whatever dots, slashes and
      escapes come, if and only if the first character that is neither a blank in front nor part of
      an escape, or else what the first escape stands for, is a slash. */
  lemma SafeIff(room: nat, s: seq<bv8>)
    requires room > 0 && NoNulRun(Start(room), s)
    ensures Safe(Path(Run(Start(room), s))) <==> First(s, NoEscape, 0) == Char(SLASH)
  {
    FirstDecides(Start(room), s);
  }

  /** A target of two dots is stored as it is, one of an escaped slash as a slash. */
  lemma DotsWithoutSlash()
    ensures var u := Run(Start(2), [DOT, DOT]); Path(u) == [DOT, DOT] && !Safe(Path(u))
    ensures Safe(Path(Run(Start(2), [PERCENT, 0x32, 0x66])))
  {
    var u1 := Step(Start(2), DOT);
    assert [DOT, DOT][..1] == [DOT] && [DOT][..0] == [];
    assert Run(Start(2), []) == Start(2);
    assert Run(Start(2), [DOT]) == u1;
    assert Run(Start(2), [DOT, DOT]) == Step(u1, DOT);
    EscapedSlash();
  }

  lemma EscapedSlash()
    ensures Safe(Path(Run(Start(2), [PERCENT, 0x32, 0x66])))
  {
    var s := [PERCENT, 0x32, 0x66];
    var u1 := Start(2).(ues := SeenPercent);
    var u2 := u1.(stash := 0x32, ues := SeenPercentH1);
    assert s[..2] == [PERCENT, 0x32] && [PERCENT, 0x32][..1] == [PERCENT] && [PERCENT][..0] == [];
    assert Run(Start(2), []) == Start(2);
    assert Run(Start(2), [PERCENT]) == u1;
    assert Run(Start(2), [PERCENT, 0x32]) == u2;
    assert Hex(0x32) == 2 && Hex(0x66) == 15 && Unescape(0x32, 0x66) == SLASH;
    assert NoNul(u2, 0x66) && NoNul(u1, 0x32) && NoNul(Start(2), PERCENT);
    assert NoNulRun(Start(2), []) && NoNulRun(Start(2), [PERCENT]) && NoNulRun(Start(2), [PERCENT, 0x32]);
    assert s[1..] == [0x32, 0x66] && s[1..][1..] == [0x66];
    SafeIff(2, s);
  }

  // ---------------------------------------------------------------- the end of the store

  /** The character is a question mark, perhaps escaped, and what is held back for it fills the store. */
  predicate Overruns(u: Uri, c: bv8) {
    && u.phase == InUri
    && match u.ues
       case NoEscape => c == QUESTION && u.room <= HeldDots(u)
       case SeenPercent => c == QUESTION && 1 <= u.room <= 1 + HeldDots(u)
       case SeenPercentH1 =>
         if Hex(c) >= 0 && Hex(u.stash) >= 0 then Unescape(u.stash, c) == QUESTION && u.room <= HeldDots(u)
         else c == QUESTION && u.room == 2 + HeldDots(u)
  }

  lemma AssessOverrun(u: Uri, c: bv8)
    requires Counts(u) && u.phase == InUri
    ensures Assess(u, c).phase == Overrun <==> c == QUESTION && u.room <= HeldDots(u)
  {
    if u.len > 2 {
      BackLoopPhase(Cut(u));
    }
  }

  lemma {:induction false} BackLoopPhase(u: Uri)
    requires Counts(u)
    ensures BackLoop(u).phase == u.phase
    decreases u.len
  {
    if u.len > 0 {
      BackLoopPhase(Cut(u));
    }
  }

  lemma StepOverrun(u: Uri, c: bv8)
    requires Counts(u) && StashOk(u) && u.phase == InUri
    ensures Step(u, c).phase == Overrun <==> Overruns(u, c)
  {
    DigitOther(c);
    var u1 := Issue(u, PERCENT).(ues := NoEscape);
    assert if u.room == 0 then u1.phase == Dropped else u1.phase == InUri && u1.room == u.room - 1;
    assert HeldDots(u1) == HeldDots(u) == HeldDots(u.(ues := NoEscape));
    assert c == SPACE ==> Issue(u.(phase := Skipping), 0).phase != Overrun;
    hide Assess, Hex, Unescape, Issue, IssueLax, HeldDots;
    if c == SPACE {
    } else if u.ues == NoEscape {
      if c != PERCENT { AssessOverrun(u, c); }
    } else if u.ues == SeenPercent {
      if u1.phase == InUri { AssessOverrun(u1, c); }
    } else if Hex(c) >= 0 {
      AssessOverrun(u.(ues := NoEscape), Unescape(u.stash, c));
    } else {
      OverrunGivenBack(u, c);
    }
  }

  lemma OverrunGivenBack(u: Uri, c: bv8)
    requires Counts(u) && Hex(u.stash) >= 0 && u.phase == InUri
    ensures var u3 := Assess(IssueLax(u, PERCENT).(ues := NoEscape), u.stash);
            (u3.phase != Dropped && Assess(u3, c).phase == Overrun) <==> c == QUESTION && u.room == 2 + HeldDots(u)
  {
    var u2 := IssueLax(u, PERCENT).(ues := NoEscape);
    assert u2.phase == InUri && u2.room == (if u.room > 0 then u.room - 1 else 0) && HeldDots(u2) == HeldDots(u) <= 1;
    hide Assess, Hex, IssueLax, HeldDots;
    AssessDigit(u2, u.stash);
    var u3 := Assess(u2, u.stash);
    if u3.phase == InUri { AssessOverrun(u3, c); }
  }

  lemma DigitOther(c: bv8)
    ensures Hex(c) >= 0 ==> c != QUESTION && c != SPACE
  {}

  /** A run writes past the end of the store if and only if at some point a question mark comes when
      what is held back fills the store. */
  lemma {:induction false} RunOverrun(room: nat, s: seq<bv8>)
    ensures StashOk(Run(Start(room), s))
    ensures Run(Start(room), s).phase == Overrun <==>
            exists i :: 0 <= i < |s| && Overruns(Run(Start(room), s[..i]), s[i])
  {
    hide Step, Overruns;
    if s != [] {
      var n := |s| - 1;
      var t, u := s[..n], Run(Start(room), s[..n]);
      RunOverrun(room, t);
      StepStash(u, s[n]);
      assert forall i :: 0 <= i < n ==> t[..i] == s[..i];
      if u.phase == InUri {
        StepOverrun(u, s[n]);
        StillGoing(room, s, t);
      } else {
        EndStays(u, s[n]);
        NotInUri(u, s[n]);
        StillGoing(room, s, t);
      }
    }
  }

  lemma NotInUri(u: Uri, c: bv8)
    requires u.phase != InUri
    ensures !Overruns(u, c)
  {}

  /** Whether a point of a longer run is one where the store overruns does not depend on what comes behind it. */
  lemma StillGoing(room: nat, s: seq<bv8>, t: seq<bv8>)
    requires s != [] && t == s[..|s| - 1]
    ensures (exists i :: 0 <= i < |s| && Overruns(Run(Start(room), s[..i]), s[i])) <==>
            (exists i :: 0 <= i < |t| && Overruns(Run(Start(room), t[..i]), t[i])) ||
            Overruns(Run(Start(room), t), s[|s| - 1])
  {
    hide Run, Overruns;
    forall i | 0 <= i < |t| ensures t[..i] == s[..i] {}
    if i :| 0 <= i < |t| && Overruns(Run(Start(room), t[..i]), t[i]) {
      assert Overruns(Run(Start(room), s[..i]), s[i]);
    }
    if i :| 0 <= i < |s| && Overruns(Run(Start(room), s[..i]), s[i]) {
      if i < |t| {
        assert Overruns(Run(Start(room), t[..i]), t[i]);
      }
    }
  }

  /** A slash and `n` letters. */
  function Letters(n: nat): (s: seq<bv8>)
    ensures |s| == n + 1
  {
    [SLASH] + seq(n, i => 0x61)
  }

  lemma LettersNext(n: nat)
    ensures Letters(n + 1) == Letters(n) + [0x61]
  {}

  lemma RunNext(u: Uri, s: seq<bv8>, c: bv8)
    requires Counts(u)
    ensures Run(u, s + [c]) == Step(Run(u, s), c)
  {
    assert (s + [c])[..|s|] == s;
    hide Step;
  }

  /** Letters behind a slash are stored as they are. */
  lemma {:induction false} RunLetters(room: nat, n: nat)
    requires n < room
    ensures Run(Start(room), Letters(n))
            == Uri(InUri, Letters(n), n + 1, room - n - 1, if n == 0 then SeenSlash else Idle, NoEscape, 0)
  {
    if n == 0 {
      RunNone(Start(room));
      StepSlash(room);
      hide Run, Step, Letters;
      RunNext(Start(room), [], SLASH);
      assert [] + [SLASH] == [SLASH] == Letters(0) by { LettersNone(); }
    } else {
      RunLetters(room, n - 1);
      LettersNext(n - 1);
      hide Run, Letters, Step;
      RunNext(Start(room), Letters(n - 1), 0x61);
      StepLetter(Letters(n - 1), n, room - n, if n == 1 then SeenSlash else Idle);
    }
  }

  lemma LettersNone()
    ensures Letters(0) == [SLASH]
  {}

  lemma RunNone(u: Uri)
    requires Counts(u)
    ensures Run(u, []) == u
  {}

  lemma StepSlash(room: nat)
    requires room > 0
    ensures Step(Start(room), SLASH) == Uri(InUri, [SLASH], 1, room - 1, SeenSlash, NoEscape, 0)
  {
    assert [] + [SLASH] == [SLASH];
  }

  lemma QuestionStep(p: seq<bv8>, n: nat, ups: PathState)
    requires |p| == n > 0 && ups in {Idle, SeenSlash}
    ensures Step(Uri(InUri, p, n, 0, ups, NoEscape, 0), QUESTION).phase == Overrun
  {}

  lemma StepLetter(p: seq<bv8>, n: nat, room: nat, ups: PathState)
    requires |p| == n > 0 && room > 0 && ups in {Idle, SeenSlash}
    ensures Step(Uri(InUri, p, n, room, ups, NoEscape, 0), 0x61)
            == Uri(InUri, p + [0x61], n + 1, room - 1, Idle, NoEscape, 0)
  {}

  /** Whatever the room, a target that fills it makes the question mark behind it be written past the end; so does
      one of 1024 characters in the source's store. */
  lemma FullAtQuestion(room: nat)
    requires room > 0
    ensures Run(Start(room), Letters(room - 1) + [QUESTION]).phase == Overrun
    ensures |Letters(CAPACITY - 1)| == 1024
  {
    RunLetters(room, room - 1);
    hide Run, Step;
    RunNext(Start(room), Letters(room - 1), QUESTION);
    QuestionStep(Letters(room - 1), room, if room == 1 then SeenSlash else Idle);
  }

  // ---------------------------------------------------------------- the header store

  /** The fields of the connection that the request line updates: the store, and the fragment of the
      target in it. */
  class HeaderStore {
    const data: array<bv8>
    var pos: nat
    const offset: nat
    var len: nat
    var phase: Phase
    var ups: PathState
    var ues: EscState
    var stash: bv8

    ghost predicate Valid()
      reads this
    {
      data.Length == CAPACITY && offset + len <= pos <= CAPACITY
    }

    ghost function State(): Uri
      requires Valid()
      reads this, data
    {
      Uri(phase, data[offset..pos], len, CAPACITY - pos, ups, ues, stash)
    }

    /** The start of the target's fragment. */
    constructor (offset: nat)
      requires offset <= CAPACITY
      ensures Valid() && State() == Start(CAPACITY - offset) && fresh(data)
    {
      data := new bv8[CAPACITY];
      this.offset, pos, len := offset, offset, 0;
      phase, ups, ues, stash := InUri, Idle, NoEscape, 0;
    }

    /** issue_char. */
    method IssueChar(c: bv8) returns (ok: bool)
      requires Valid()
      modifies this`pos, this`len, data
      ensures Valid() && State() == IssueLax(old(State()), c) && ok == (old(pos) < CAPACITY)
    {
      if pos == CAPACITY {
        return false;
      }
      data[pos] := c;
      pos := pos + 1;
      if c != 0 {
        len := len + 1;
      }
      assert data[offset..pos] == old(data[offset..pos]) + [c];
      return true;
    }

    method IssueOrDrop(c: bv8)
      requires Valid()
      modifies this`pos, this`len, this`phase, data
      ensures Valid() && State() == Issue(old(State()), c)
    {
      var ok := IssueChar(c);
      if !ok {
        phase := Dropped;
      }
    }

    method GiveBack()
      requires Valid() && len > 0
      modifies this`pos, this`len
      ensures Valid() && State() == Cut(old(State()))
    {
      pos, len := pos - 1, len - 1;
      assert data[offset..pos] == old(data[offset..pos])[..pos - offset];
    }

    /** The code that backs up one directory level. */
    method BackUpLevel()
      requires Valid()
      modifies this`pos, this`len
      ensures Valid() && State() == BackUp(old(State()))
    {
      if len > 2 {
        GiveBack();
        ghost var u := State();
        var more := true;
        while more
          invariant Valid() && (if more then len > 0 && BackLoop(State()) == BackLoop(u) else State() == BackLoop(u))
          decreases len, more
        {
          ghost var before := State();
          BackLoopIs(before);
          hide BackLoop, Cut;
          GiveBack();
          more := len > 1 && data[pos] != SLASH;
        }
      }
    }

    /** From `check_eol`. */
    method KeepChar(c: bv8)
      requires Valid()
      modifies this`pos, this`len, this`phase, data
      ensures Valid() && State() == Keep(old(State()), c)
    {
      if c == CR {
        phase := SawCr;
        IssueOrDrop(0);
      } else if c == QUESTION {
        if pos == CAPACITY {
          phase := Overrun;
          return;
        }
        var ok := IssueChar(0);
        phase := Arguments;
      } else {
        IssueOrDrop(c);
      }
    }

    /** From the path states on. */
    method AssessChar(c: bv8)
      requires Valid()
      modifies this`pos, this`len, this`phase, this`ups, data
      ensures Valid() && State() == Assess(old(State()), c)
    {
      hide Keep, BackLoop;
      match ups
      case Idle =>
        if c == SLASH {
          ups := SeenSlash;
        }
        KeepChar(c);
      case SeenSlash =>
        if c == SLASH {
          return;
        }
        if c == DOT {
          ups := SeenSlashDot;
          return;
        }
        ups := Idle;
        KeepChar(c);
      case SeenSlashDot =>
        if c == DOT {
          BackUpLevel();
          ups := SeenSlashDotDot;
          return;
        }
        if c == SLASH {
          ups := SeenSlash;
          return;
        }
        ups := Idle;
        var ok := IssueChar(DOT);
        KeepChar(c);
      case SeenSlashDotDot =>
        if c == DOT || c == SLASH {
          return;
        }
        ups := SeenSlash;
        KeepChar(c);
    }

    /** libwebsocket_parse on one character of the request line after the method. */
    method Parse(c: bv8)
      requires Valid()
      modifies this, data
      ensures Valid() && State() == Step(old(State()), c)
    {
      hide Assess, Hex, Unescape, Issue;
      if phase != InUri || (len == 0 && c == SPACE) {
        return;
      }
      if c == SPACE {
        phase := Skipping;
        IssueOrDrop(0);
        return;
      }
      match ues
      case NoEscape =>
        if c == PERCENT {
          ues := SeenPercent;
        } else {
          AssessChar(c);
        }
      case SeenPercent =>
        AfterPercent(c);
      case SeenPercentH1 =>
        AfterDigit(c);
    }

    method AfterPercent(c: bv8)
      requires Valid() && phase == InUri && ues == SeenPercent && c != SPACE
      modifies this, data
      ensures Valid() && State() == Step(old(State()), c)
    {
      hide Assess, Hex, Unescape, Issue;
      if Hex(c) >= 0 {
        stash, ues := c, SeenPercentH1;
        return;
      }
      IssueOrDrop(PERCENT);
      if phase != Dropped {
        ues := NoEscape;
        AssessChar(c);
      }
    }

    method AfterDigit(c: bv8)
      requires Valid() && phase == InUri && ues == SeenPercentH1 && c != SPACE
      modifies this, data
      ensures Valid() && State() == Step(old(State()), c)
    {
      hide Assess, Hex, Unescape;
      ues := NoEscape;
      if Hex(c) >= 0 && Hex(stash) >= 0 {
        AssessChar(Unescape(stash, c));
        return;
      }
      var ok := IssueChar(PERCENT);
      AssessChar(stash);
      if phase != Dropped {
        AssessChar(c);
      }
    }
  }
}
