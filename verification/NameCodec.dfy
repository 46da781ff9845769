/** Partition names (gdisk/gptpart.cc): given as UTF-8, kept as 36 UTF-16 code units, and turned
    back into UTF-8. */
module NameCodec {

  const NAME_SIZE: nat := 36

  /** A character: a Unicode scalar value other than zero. */
  predicate IsChar(c: nat) { 0 < c < 0x110000 && !(0xd800 <= c <= 0xdfff) }

  predicate IsText(cs: seq<nat>) { forall i :: 0 <= i < |cs| ==> IsChar(cs[i]) }

  predicate Bmp(c: nat) { c < 0x10000 }

  // ---------- UTF-8 and UTF-16 ----------

  /** UTF-8, as in section 3 of RFC 3629. */
  function Utf8(c: nat): (b: seq<nat>) {
    if c < 0x80 then [c]
    else if c < 0x800 then [0xc0 + c / 64, 0x80 + c % 64]
    else if c < 0x10000 then [0xe0 + c / 4096, 0x80 + c / 64 % 64, 0x80 + c % 64]
    else [0xf0 + c / 262144, 0x80 + c / 4096 % 64, 0x80 + c / 64 % 64, 0x80 + c % 64]
  }

  /** UTF-16, as in section 2.1 of RFC 2781. */
  function Utf16(c: nat): (u: seq<nat>)
    ensures 1 <= |u| <= 2
  {
    if c < 0x10000 then [c] else [0xd800 + (c - 0x10000) / 1024, 0xdc00 + (c - 0x10000) % 1024]
  }

  function Utf8All(cs: seq<nat>): seq<nat> { if cs == [] then [] else Utf8(cs[0]) + Utf8All(cs[1..]) }

  function Utf16All(cs: seq<nat>): seq<nat> { if cs == [] then [] else Utf16(cs[0]) + Utf16All(cs[1..]) }

  /** How many leading characters fit a number of code units. */
  function Fits(cs: seq<nat>, room: nat): (k: nat)
    ensures k <= |cs|
  {
    if cs == [] || |Utf16(cs[0])| > room then 0 else 1 + Fits(cs[1..], room - |Utf16(cs[0])|)
  }

  /** That is the longest prefix that fits. */
  lemma {:induction false} FitsMeaning(cs: seq<nat>, room: nat)
    ensures var k := Fits(cs, room);
            |Utf16All(cs[..k])| <= room && forall j :: k < j <= |cs| ==> |Utf16All(cs[..j])| > room
  {
    if cs != [] {
      var w := |Utf16(cs[0])|;
      forall j | 0 < j <= |cs|
        ensures |Utf16All(cs[..j])| == w + |Utf16All(cs[1..][..j - 1])|
      {
        assert cs[..j][0] == cs[0] && cs[..j][1..] == cs[1..][..j - 1];
      }
      if w <= room {
        FitsMeaning(cs[1..], room - w);
      }
    }
  }

  // ---------- what SetName keeps ----------

  /** How many bytes follow a first byte, and the bits it carries; none for an invalid one. */
  function Lead(b: nat): (r: (int, nat)) {
    if b < 0x80 then (0, b)
    else if b < 0xc0 || b > 0xf7 then (-1, 0)
    else if b < 0xe0 then (1, b % 32)
    else if b < 0xf0 then (2, b % 16)
    else (3, b % 8)
  }

  /** The value after todo continuation bytes, or -1 if one is missing or invalid. */
  function Continue(bytes: seq<nat>, uni: nat, todo: nat): (r: int) {
    if todo == 0 then uni
    else if bytes == [] || bytes[0] > 0xbf || bytes[0] < 0x80 then -1
    else Continue(bytes[1..], uni * 64 + bytes[0] % 64, todo - 1)
  }

  /** The code units SetName stores in the given room. */
  function Stored(bytes: seq<nat>, room: nat): (u: seq<nat>)
    ensures |u| <= room
    decreases |bytes|
  {
    if bytes == [] || room == 0 then []
    else
      var (todo, bits) := Lead(bytes[0]);
      if todo < 0 then []
      else
        var uni := Continue(bytes[1..], bits, todo);
        if uni < 0 || 1 + todo > |bytes| then []
        else if uni < 0x10000 then [uni] + Stored(bytes[1 + todo..], room - 1)
        else if room < 2 then []
        else Utf16(uni) + Stored(bytes[1 + todo..], room - 2)
  }

  /** The decoder of SetName undoes UTF-8. */
  lemma DecodesUtf8(c: nat, rest: seq<nat>)
    requires IsChar(c)
    ensures var bytes := Utf8(c) + rest; var (todo, bits) := Lead(bytes[0]);
            todo + 1 == |Utf8(c)| && Continue(bytes[1..], bits, todo) == c && bytes[1 + todo..] == rest
  {
    hide Continue;
    var bytes := Utf8(c) + rest;
    var (todo, bits) := Lead(bytes[0]);
    LeadOf(c);
    Digits(c);
    if c < 0x80 {
      assert bytes[1..] == rest;
      ContinueDone(rest, c);
    } else if c < 0x800 {
      assert bytes[1..] == [bytes[1]] + rest;
      ContinueOne(rest, bits, bytes[1]);
    } else if c < 0x10000 {
      assert bytes[1..] == [bytes[1]] + ([bytes[2]] + rest);
      ContinueNext([bytes[2]] + rest, bits, bytes[1], 1);
      ContinueOne(rest, c / 64, bytes[2]);
    } else {
      assert bytes[1..] == [bytes[1]] + ([bytes[2]] + ([bytes[3]] + rest));
      ContinueNext([bytes[2]] + ([bytes[3]] + rest), bits, bytes[1], 2);
      ContinueNext([bytes[3]] + rest, c / 4096, bytes[2], 1);
      ContinueOne(rest, c / 64, bytes[3]);
    }
  }

  lemma ContinueDone(rest: seq<nat>, uni: nat)
    ensures Continue(rest, uni, 0) == uni
  {}

  lemma ContinueNext(rest: seq<nat>, uni: nat, b: nat, todo: nat)
    requires 0x80 <= b <= 0xbf
    ensures Continue([b] + rest, uni, todo + 1) == Continue(rest, uni * 64 + b % 64, todo)
  {
    assert ([b] + rest)[1..] == rest;
  }

  lemma ContinueOne(rest: seq<nat>, uni: nat, b: nat)
    requires 0x80 <= b <= 0xbf
    ensures Continue([b] + rest, uni, 1) == uni * 64 + b % 64
  {
    ContinueNext(rest, uni, b, 0);
  }

  lemma LeadOf(c: nat)
    requires IsChar(c)
    ensures Lead(Utf8(c)[0]) == (|Utf8(c)| - 1,
              if c < 0x80 then c else if c < 0x800 then c / 64 else if c < 0x10000 then c / 4096 else c / 262144)
  {}

  lemma Digits(c: nat)
    ensures c / 64 * 64 + (0x80 + c % 64) % 64 == c
    ensures c / 4096 * 64 + (0x80 + c / 64 % 64) % 64 == c / 64
    ensures c / 262144 * 64 + (0x80 + c / 4096 % 64) % 64 == c / 4096
  {
    Digit(c);
    Digit(c / 64);
    Digit(c / 4096);
    assert c / 64 / 64 == c / 4096 && c / 4096 / 64 == c / 262144;
  }

  lemma Digit(c: nat)
    ensures c / 64 * 64 + (0x80 + c % 64) % 64 == c
  {}

  lemma NothingStored(room: nat)
    ensures Stored([], room) == []
  {}

  lemma StoresOne(c: nat, rest: seq<nat>, room: nat)
    requires IsChar(c)
    ensures var w := |Utf16(c)|;
            Stored(Utf8(c) + rest, room) == if w <= room then Utf16(c) + Stored(rest, room - w) else []
  {
    hide Lead, Continue, Utf8, Utf16;
    DecodesUtf8(c, rest);
    WidthOf(c);
  }

  lemma WidthOf(c: nat)
    requires IsChar(c)
    ensures |Utf8(c)| > 0 && Utf16(c) == (if c < 0x10000 then [c] else Utf16(c)) && (c >= 0x10000 ==> |Utf16(c)| == 2)
  {}

  /** SetName keeps the longest prefix of a text that fits, and splits no character. */
  lemma {:induction false} StoresPrefix(cs: seq<nat>, room: nat)
    requires IsText(cs)
    ensures Stored(Utf8All(cs), room) == Utf16All(cs[..Fits(cs, room)])
  {
    hide Stored, Utf8, Utf16;
    if cs == [] {
      NothingStored(room);
    } else {
      var c, rest := cs[0], cs[1..];
      var w := |Utf16(c)|;
      StoresOne(c, Utf8All(rest), room);
      if w <= room {
        StoresPrefix(rest, room - w);
        var k := Fits(cs, room);
        assert cs[..k][1..] == rest[..k - 1];
      }
    }
  }

  /** The i-th byte is no continuation byte. */
  predicate Missing(bytes: seq<nat>, i: nat) { i >= |bytes| || !(0x80 <= bytes[i] <= 0xbf) }

  /** The bytes do not begin with a character: a continuation byte or an invalid one comes first, or
      the first byte is followed by too few continuation bytes. */
  predicate Broken(bytes: seq<nat>) {
    && bytes != []
    && (|| 0x80 <= bytes[0] < 0xc0
        || bytes[0] > 0xf7
        || (bytes[0] >= 0xc0 && Missing(bytes, 1))
        || (bytes[0] >= 0xe0 && Missing(bytes, 2))
        || (bytes[0] >= 0xf0 && Missing(bytes, 3)))
  }

  lemma {:induction false} ContinueBroken(bytes: seq<nat>, uni: nat, todo: nat, i: nat)
    requires i < todo && Missing(bytes, i)
    ensures Continue(bytes, uni, todo) < 0
    decreases todo
  {
    if i > 0 && bytes != [] && 0x80 <= bytes[0] <= 0xbf {
      assert Missing(bytes[1..], i - 1);
      ContinueBroken(bytes[1..], uni * 64 + bytes[0] % 64, todo - 1, i - 1);
    }
  }

  lemma BrokenStored(bytes: seq<nat>, room: nat)
    requires Broken(bytes)
    ensures Stored(bytes, room) == []
  {
    var (todo, bits) := Lead(bytes[0]);
    var rest := bytes[1..];
    if todo >= 1 && Missing(bytes, 1) {
      ContinueBroken(rest, bits, todo, 0);
    } else if todo >= 2 && Missing(bytes, 2) {
      ContinueBroken(rest, bits, todo, 1);
    } else if todo >= 3 && Missing(bytes, 3) {
      ContinueBroken(rest, bits, todo, 2);
    }
  }

  /** A name that is broken somewhere is cut there: what is stored is the text before that place, as
      far as it fits. */
  lemma {:induction false} StoresUntilBroken(cs: seq<nat>, bad: seq<nat>, room: nat)
    requires IsText(cs) && Broken(bad)
    ensures Stored(Utf8All(cs) + bad, room) == Utf16All(cs[..Fits(cs, room)])
    decreases cs
  {
    hide Stored, Utf8, Utf16, Broken;
    if cs == [] {
      assert Utf8All(cs) + bad == bad;
      BrokenStored(bad, room);
    } else {
      var c, rest := cs[0], cs[1..];
      var w := |Utf16(c)|;
      assert Utf8All(cs) + bad == Utf8(c) + (Utf8All(rest) + bad);
      StoresOne(c, Utf8All(rest) + bad, room);
      if w <= room {
        StoresUntilBroken(rest, bad, room - w);
        var k := Fits(cs, room);
        assert cs[..k][1..] == rest[..k - 1];
      }
    }
  }

  // ---------- what GetDescription makes of it ----------

  /** The bytes GetDescription emits for a character: UTF-8, but for the second of four bytes. */
  function Emit(c: nat): seq<nat> {
    if c < 0x10000 then Utf8(c)
    else [0xf0 + c / 262144, 0xe0 + c / 4096 % 64 % 32, 0x80 + c / 64 % 64, 0x80 + c % 64]
  }

  function EmitAll(cs: seq<nat>): seq<nat> { if cs == [] then [] else Emit(cs[0]) + EmitAll(cs[1..]) }

  /** GetDescription over the code units, up to a zero or something invalid. */
  function Described(u: seq<nat>): seq<nat> {
    if u == [] || u[0] == 0 then []
    else if u[0] < 0xd800 || u[0] > 0xdfff then Emit(u[0]) + Described(u[1..])
    else if u[0] >= 0xdc00 || |u| == 1 || u[1] < 0xdc00 || u[1] > 0xdfff then []
    else Emit(u[0] % 1024 * 1024 + u[1] % 1024 + 0x10000) + Described(u[2..])
  }

  /** GetDescription goes through a text character by character. */
  lemma {:induction false} DescribesText(cs: seq<nat>, pad: seq<nat>)
    requires IsText(cs) && (pad != [] ==> pad[0] == 0)
    ensures Described(Utf16All(cs) + pad) == EmitAll(cs)
  {
    hide Utf16, Emit;
    if cs == [] {
      assert Utf16All(cs) + pad == pad;
    } else {
      DescribesText(cs[1..], pad);
      var rest := Utf16All(cs[1..]) + pad;
      assert Utf16All(cs) + pad == Utf16(cs[0]) + rest;
      DescribesOne(cs[0], rest);
    }
  }

  /** The surrogates of a character lead back to it. */
  lemma DescribesOne(c: nat, rest: seq<nat>)
    requires IsChar(c)
    ensures Described(Utf16(c) + rest) == Emit(c) + Described(rest)
  {
    hide Emit;
    var u := Utf16(c) + rest;
    if c < 0x10000 {
      assert u[1..] == rest;
    } else {
      assert u[2..] == rest;
      assert (c - 0x10000) / 1024 * 1024 + (c - 0x10000) % 1024 + 0x10000 == c;
      assert u[0] % 1024 == (c - 0x10000) / 1024 && u[1] % 1024 == (c - 0x10000) % 1024;
    }
  }

  lemma {:induction false} EmitsUtf8(cs: seq<nat>)
    requires IsText(cs)
    ensures EmitAll(cs) == Utf8All(cs) <==> forall i :: 0 <= i < |cs| ==> Bmp(cs[i])
  {
    if cs != [] {
      EmitsUtf8(cs[1..]);
      var c := cs[0];
      assert forall i :: 1 <= i < |cs| ==> cs[i] == cs[1..][i - 1];
      if Bmp(c) {
        var e, f := EmitAll(cs), Utf8All(cs);
        assert e == Utf8(c) + EmitAll(cs[1..]) && f == Utf8(c) + Utf8All(cs[1..]);
        assert e[|Utf8(c)|..] == EmitAll(cs[1..]) && f[|Utf8(c)|..] == Utf8All(cs[1..]);
        if forall i :: 0 <= i < |cs[1..]| ==> Bmp(cs[1..][i]) {
          forall i | 0 <= i < |cs| ensures Bmp(cs[i]) { assert i > 0 ==> Bmp(cs[1..][i - 1]); }
        }
      } else {
        assert EmitAll(cs)[1] >= 0xe0 && Utf8All(cs)[1] < 0xc0;
      }
    }
  }

  // ---------- round trips ----------

  /** Naming and describing: what comes back is the longest prefix of the text that fits 36 code
      units, if and only if that prefix has no character beyond the basic plane. */
  lemma RoundTrip(cs: seq<nat>, name: seq<nat>)
    requires IsText(cs) && IsName(name, Utf8All(cs))
    ensures var k := Fits(cs, NAME_SIZE);
            Described(name) == Utf8All(cs[..k]) <==> forall i :: 0 <= i < k ==> Bmp(cs[i])
  {
    var k := Fits(cs, NAME_SIZE);
    var kept := cs[..k];
    StoresPrefix(cs, NAME_SIZE);
    var u := Stored(Utf8All(cs), NAME_SIZE);
    assert name == u + name[|u|..];
    DescribesText(kept, name[|u|..]);
    EmitsUtf8(kept);
    assert forall i :: 0 <= i < k ==> kept[i] == cs[i];
  }

  /** The name SetName makes of some bytes: what it stores, then zeros. */
  predicate IsName(name: seq<nat>, bytes: seq<nat>) {
    var u := Stored(bytes, NAME_SIZE);
    |name| == NAME_SIZE && name[..|u|] == u && forall i :: |u| <= i < NAME_SIZE ==> name[i] == 0
  }

  lemma {:induction false} ShortFits(cs: seq<nat>, room: nat)
    requires |cs| <= room && forall i :: 0 <= i < |cs| ==> Bmp(cs[i])
    ensures Fits(cs, room) == |cs|
  {
    if cs != [] {
      ShortFits(cs[1..], room - 1);
    }
  }

  /** A name of up to 36 characters of the basic plane comes back unchanged. */
  lemma ShortNames(cs: seq<nat>, name: seq<nat>)
    requires IsText(cs) && |cs| <= NAME_SIZE && (forall i :: 0 <= i < |cs| ==> Bmp(cs[i])) && IsName(name, Utf8All(cs))
    ensures Described(name) == Utf8All(cs)
  {
    ShortFits(cs, NAME_SIZE);
    RoundTrip(cs, name);
    assert cs[..|cs|] == cs;
  }

  /** A single character beyond the basic plane already comes back as something else. */
  lemma FourBytesBreak(name: seq<nat>)
    requires IsName(name, [0xf0, 0x9f, 0x98, 0x80])
    ensures Described(name) != [0xf0, 0x9f, 0x98, 0x80]
  {
    var c := 0x1f600;
    assert Utf8All([c]) == [0xf0, 0x9f, 0x98, 0x80] by { assert [c][1..] == []; }
    RoundTrip([c], name);
    assert Fits([c], NAME_SIZE) == 1;
    assert [c][..1] == [c];
    assert !Bmp([c][0]);
  }

  // ---------- the methods ----------

  /** The last part of SetName's loop: one character in UTF-16. */
  method Put(name: array<nat>, pos: nat, uni: nat) returns (next: nat)
    requires pos + |Utf16(uni)| <= name.Length
    modifies name
    ensures next == pos + |Utf16(uni)| && name[..next] == old(name[..pos]) + Utf16(uni)
  {
    next := pos;
    if uni < 0x10000 {
      name[next] := uni;
      next := next + 1;
    } else {
      name[next] := 0xd800 + (uni - 0x10000) / 1024;
      next := next + 1;
      name[next] := 0xdc00 + (uni - 0x10000) % 1024;
      next := next + 1;
    }
  }

  /** SetName. */
  method SetName(name: array<nat>, theName: seq<nat>)
    requires name.Length == NAME_SIZE
    modifies name
    ensures IsName(name[..], theName)
  {
    hide Stored, Decoded, Utf16;
    var pos, i := 0, 0;
    var broken := false;
    assert theName[0..] == theName;
    ghost var left := Stored(theName, NAME_SIZE);
    while pos < NAME_SIZE && i < |theName| && !broken
      invariant 0 <= pos <= NAME_SIZE && 0 <= i <= |theName|
      invariant name[..pos] + left == Stored(theName, NAME_SIZE)
      invariant left == if broken then [] else Stored(theName[i..], NAME_SIZE - pos)
      decreases |theName| - i, !broken
    {
      var uni, next := DecodeOne(theName, i);
      StoredStep(theName, i, uni, next, NAME_SIZE - pos);
      if uni < 0 {
        broken := true;
      } else {
        Widths(uni);
        i := next;
        if uni >= 0x10000 && pos > NAME_SIZE - 2 {
          broken := true;
        } else {
          ghost var before := name[..pos];
          pos := Put(name, pos, uni);
          left := Stored(theName[i..], NAME_SIZE - pos);
          Regroup(before, Utf16(uni), left);
        }
      }
      if broken {
        left := [];
      }
    }
    ghost var kept := pos;
    if !broken {
      StoredEnd(theName, i, NAME_SIZE - pos);
    }
    assert name[..kept] == Stored(theName, NAME_SIZE);
    while pos < NAME_SIZE
      invariant kept <= pos <= NAME_SIZE && name[..kept] == Stored(theName, NAME_SIZE)
      invariant forall j :: kept <= j < pos ==> name[j] == 0
    {
      name[pos] := 0;
      pos := pos + 1;
    }
  }

  /** The character at i, -1 if the bytes are broken there, and where the next one starts. */
  predicate Decoded(theName: seq<nat>, i: nat, uni: int, next: nat)
    requires i < |theName|
  {
    var (todo, bits) := Lead(theName[i]);
    && i < next
    && if todo < 0 then uni < 0
       else uni == Continue(theName[i + 1..], bits, todo) && (uni >= 0 ==> next == i + 1 + todo <= |theName|)
  }

  lemma Widths(uni: nat)
    ensures |Utf16(uni)| == if uni < 0x10000 then 1 else 2
  {}

  lemma Regroup(a: seq<nat>, b: seq<nat>, c: seq<nat>)
    ensures a + (b + c) == (a + b) + c
  {}

  lemma StoredEnd(theName: seq<nat>, i: nat, room: nat)
    requires i <= |theName| && (i == |theName| || room == 0)
    ensures Stored(theName[i..], room) == []
  {}

  lemma StoredStep(theName: seq<nat>, i: nat, uni: int, next: nat, room: nat)
    requires i < |theName| && room > 0 && Decoded(theName, i, uni, next)
    ensures i < next && (uni >= 0 ==> next <= |theName|)
    ensures Stored(theName[i..], room) ==
            if uni < 0 || |Utf16(uni)| > room then [] else Utf16(uni) + Stored(theName[next..], room - |Utf16(uni)|)
  {
    hide Lead, Continue;
    var (todo, bits) := Lead(theName[i]);
    var bytes := theName[i..];
    assert bytes[0] == theName[i] && bytes[1..] == theName[i + 1..];
    if uni >= 0 {
      assert bytes[1 + todo..] == theName[next..];
    }
  }

  /** One character from the bytes at i on, or -1 if they are broken. */
  method DecodeOne(theName: seq<nat>, i: nat) returns (uni: int, next: nat)
    requires i < |theName|
    ensures Decoded(theName, i, uni, next)
  {
    var cp := theName[i];
    next := i + 1;
    var todo;
    if cp < 0x80 {
      uni, todo := cp, 0;
    } else if cp < 0xc0 || cp > 0xf7 {
      uni := -1;
      return;
    } else if cp < 0xe0 {
      uni, todo := cp % 32, 1;
    } else if cp < 0xf0 {
      uni, todo := cp % 16, 2;
    } else {
      uni, todo := cp % 8, 3;
    }
    ghost var (all, bits) := Lead(theName[i]);
    while todo > 0
      invariant 0 <= todo <= all && next == i + 1 + all - todo <= |theName| && uni >= 0
      invariant Continue(theName[next..], uni, todo) == Continue(theName[i + 1..], bits, all)
    {
      if next >= |theName| {
        uni := -1;
        return;
      }
      cp := theName[next];
      if cp > 0xbf || cp < 0x80 {
        uni := -1;
        return;
      }
      assert theName[next..][1..] == theName[next + 1..];
      next := next + 1;
      uni := uni * 64 + cp % 64;
      todo := todo - 1;
    }
  }

  lemma DescribedEnd(name: seq<nat>, i: nat)
    requires i <= |name| && (i == |name| || name[i] == 0)
    ensures Described(name[i..]) == []
  {}

  lemma DescribedStep(name: seq<nat>, i: nat)
    requires i < |name|
    ensures var cp := name[i];
            Described(name[i..]) ==
            if cp == 0 then []
            else if cp < 0xd800 || cp > 0xdfff then Emit(cp) + Described(name[i + 1..])
            else if cp >= 0xdc00 || i + 1 == |name| || name[i + 1] < 0xdc00 || name[i + 1] > 0xdfff then []
            else Emit(cp % 1024 * 1024 + name[i + 1] % 1024 + 0x10000) + Described(name[i + 2..])
  {
    hide Emit;
    var u := name[i..];
    assert u[1..] == name[i + 1..];
    if |u| > 1 {
      assert u[2..] == name[i + 2..];
    }
  }

  /** GetDescription. */
  method GetDescription(name: array<nat>) returns (utf8: seq<nat>)
    requires name.Length == NAME_SIZE
    ensures utf8 == Described(name[..])
  {
    hide Described, Emit;
    utf8 := [];
    var pos := 0;
    assert name[0..] == name[..];
    ghost var ended := false;
    while pos < NAME_SIZE && name[pos] != 0
      invariant 0 <= pos <= NAME_SIZE && utf8 + Described(name[pos..]) == Described(name[..]) && !ended
    {
      var cp := name[pos];
      DescribedStep(name[..], pos);
      pos := pos + 1;
      var uni;
      if cp < 0xd800 || cp > 0xdfff {
        uni := cp;
      } else if cp < 0xdc00 {
        uni := cp % 1024 * 1024;
        if pos >= NAME_SIZE {
          ended := true;
          break;
        }
        cp := name[pos];
        pos := pos + 1;
        if cp < 0xdc00 || cp > 0xdfff {
          ended := true;
          break;
        }
        uni := uni + cp % 1024;
        uni := uni + 0x10000;
      } else {
        ended := true;
        break;
      }
      utf8 := Append(utf8, uni);
    }
    if !ended {
      DescribedEnd(name[..], pos);
    }
  }

  /** The last part of GetDescription's loop: one character in UTF-8. */
  method Append(before: seq<nat>, uni: nat) returns (utf8: seq<nat>)
    ensures utf8 == before + Emit(uni)
  {
    utf8 := before;
    if uni < 0x80 {
      utf8 := utf8 + [uni];
    } else if uni < 0x800 {
      utf8 := utf8 + [0xc0 + uni / 64];
      utf8 := utf8 + [0x80 + uni % 64];
    } else if uni < 0x10000 {
      utf8 := utf8 + [0xe0 + uni / 4096];
      utf8 := utf8 + [0x80 + uni / 64 % 64];
      utf8 := utf8 + [0x80 + uni % 64];
    } else {
      utf8 := utf8 + [0xf0 + uni / 262144];
      utf8 := utf8 + [0xe0 + uni / 4096 % 64 % 32];
      utf8 := utf8 + [0x80 + uni / 64 % 64];
      utf8 := utf8 + [0x80 + uni % 64];
    }
  }
}
