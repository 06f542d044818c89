/**
 The PeakFS image (kernel/vfs_peakfs.c, kernel/vfs_path_util.c): its bytes, the validation
 pass over them, and which paths it may hold.
 */
module PeakImage {
  import opened VfsPath
  import opened VfsTree

  const HEADER: nat := 12

  /** An entry: the name bytes, ending in '/' for a directory, and the file's bytes. */
  datatype Entry = Entry(name: seq<Byte>, data: seq<Byte>)

  function Magic(): seq<Byte> {
    [0x50, 0x45, 0x41, 0x4b, 0x46, 0x53, 0x31]    // "PEAKFS1"
  }

  // ---- numbers ----

  function U16(n: nat): (b: seq<Byte>)
    requires n < 0x1_0000
    ensures |b| == 2
  {
    [(n % 256) as Byte, (n / 256) as Byte]
  }

  function U32(n: nat): (b: seq<Byte>)
    requires n < 0x1_0000_0000
    ensures |b| == 4
  {
    [(n % 256) as Byte, (n / 256 % 256) as Byte, (n / 0x1_0000 % 256) as Byte, (n / 0x100_0000) as Byte]
  }

  function Get16(b: seq<Byte>, off: nat): nat
    requires off + 2 <= |b|
  {
    b[off] as nat + 256 * b[off + 1] as nat
  }

  function Get32(b: seq<Byte>, off: nat): nat
    requires off + 4 <= |b|
  {
    b[off] as nat + 256 * b[off + 1] as nat + 0x1_0000 * b[off + 2] as nat + 0x100_0000 * b[off + 3] as nat
  }

  lemma NumbersRoundTrip(n: nat, b: seq<Byte>, off: nat)
    ensures n < 0x1_0000 && off + 2 <= |b| && b[off..off + 2] == U16(n) ==> Get16(b, off) == n
    ensures n < 0x1_0000_0000 && off + 4 <= |b| && b[off..off + 4] == U32(n) ==> Get32(b, off) == n
  {
    if n < 0x1_0000 && off + 2 <= |b| && b[off..off + 2] == U16(n) {
      assert b[off] == U16(n)[0] && b[off + 1] == U16(n)[1];
    }
    if n < 0x1_0000_0000 && off + 4 <= |b| && b[off..off + 4] == U32(n) {
      FourBytes(n, b[off..off + 4]);
    }
  }

  lemma FourBytes(n: nat, b: seq<Byte>)
    requires n < 0x1_0000_0000 && b == U32(n)
    ensures Get32(b, 0) == n
  {
    var q := n / 256;
    var r := q / 256;
    assert n / 0x1_0000 == r && n / 0x100_0000 == r / 256;
  }

  // ---- names ----

  /** A C string ends at its first zero. */
  function CStr(s: string): (r: string)
    ensures |r| <= |s| && r == s[..|r|] && '\0' !in r
  {
    if s == "" || s[0] == '\0' then ""
    else
      assert s[..1 + |CStr(s[1..])|] == [s[0]] + s[1..][..|CStr(s[1..])|];
      [s[0]] + CStr(s[1..])
  }

  predicate IsDirName(name: seq<Byte>) {
    name != [] && name[|name| - 1] == 0x2f
  }

  /** The path an entry is about, without the slash that marks a directory. */
  function PathOf(name: seq<Byte>): string {
    CStr(if IsDirName(name) then Text(name[..|name| - 1]) else Text(name))
  }

  /** A ".." component stands at position `i` of the text. */
  predicate DotDotAt(s: string, i: nat) {
    && i + 2 <= |s| && s[i] == '.' && s[i + 1] == '.'
    && (i == 0 || s[i - 1] == '/') && (i + 2 == |s| || s[i + 2] == '/')
  }

  predicate Under(s: string, root: string) {
    root <= s && (|s| == |root| || s[|root|] == '/')
  }

  /** peakfs_path_allowed_for_profile */
  predicate Allowed(s: string, profile: int) {
    && s != "" && s[0] == '/'
    && (forall i :: 0 <= i < |s| ==> !DotDotAt(s, i))
    && profile > 0
    && (Under(s, "/home") || (profile != 1 && (Under(s, "/etc/peak") || Under(s, "/var/peak"))))
  }

  /** The loop that looks for "..". */
  method PathAllowed(s: string, profile: int) returns (ok: bool)
    ensures ok <==> Allowed(s, profile)
  {
    if s == "" || s[0] != '/' {
      return false;
    }
    for i := 0 to |s|
      invariant forall j :: 0 <= j < i ==> !DotDotAt(s, j)
    {
      if DotDotAt(s, i) {
        return false;
      }
    }
    if profile <= 0 {
      return false;
    }
    if profile == 1 {
      return Under(s, "/home");
    }
    ok := Under(s, "/home") || Under(s, "/etc/peak") || Under(s, "/var/peak");
  }

  // ---- entries ----

  predicate EntryOk(e: Entry, profile: int) {
    && 0 < |e.name| < PATH_MAX && |e.data| < 0x1_0000_0000
    && (IsDirName(e.name) ==> e.data == [])
    && Allowed(PathOf(e.name), profile)
  }

  function EncodeEntry(e: Entry): seq<Byte>
    requires |e.name| < 0x1_0000 && |e.data| < 0x1_0000_0000
  {
    U16(|e.name|) + e.name + U32(|e.data|) + e.data
  }

  predicate Encodable(es: seq<Entry>) {
    forall i :: 0 <= i < |es| ==> |es[i].name| < 0x1_0000 && |es[i].data| < 0x1_0000_0000
  }

  function EncodeAll(es: seq<Entry>): seq<Byte>
    requires Encodable(es)
  {
    if es == [] then [] else EncodeEntry(es[0]) + EncodeAll(es[1..])
  }

  function Encode(es: seq<Entry>): (img: seq<Byte>)
    requires Encodable(es) && |es| < 0x1_0000_0000
    ensures |img| >= HEADER
  {
    Magic() + [0] + U32(|es|) + EncodeAll(es)
  }

  /** One entry of an image and where the next one starts. */
  function ReadEntry(img: seq<Byte>, off: nat): Result<(Entry, nat)> {
    if off + 2 > |img| then Err(Io)
    else
      var nlen := Get16(img, off);
      if nlen == 0 || nlen >= PATH_MAX || off + 2 + nlen + 4 > |img| then Err(Invalid)
      else
        var dlen := Get32(img, off + 2 + nlen);
        var at := off + 2 + nlen + 4;
        if at + dlen > |img| then Err(Io)
        else Ok((Entry(img[off + 2..off + 2 + nlen], img[at..at + dlen]), at + dlen))
  }

  /** The validation pass: the entries it accepts, or the first error. */
  function Parse(img: seq<Byte>, off: nat, count: nat, profile: int): Result<seq<Entry>>
    decreases count
  {
    if count == 0 then Ok([])
    else
      match ReadEntry(img, off)
      case Err(e) => Err(e)
      case Ok((e, next)) =>
        if IsDirName(e.name) && e.data != [] then Err(Invalid)
        else if !Allowed(PathOf(e.name), profile) then Err(Denied)
        else
          match Parse(img, next, count - 1, profile)
          case Err(x) => Err(x)
          case Ok(rest) => Ok([e] + rest)
  }

  predicate HasHeader(img: seq<Byte>) {
    |img| >= HEADER && img[..7] == Magic()
  }

  function ParseImage(img: seq<Byte>, profile: int): Result<seq<Entry>> {
    if !HasHeader(img) then Err(Io) else Parse(img, HEADER, Get32(img, 8), profile)
  }

  // ---- encoding and parsing are inverse ----

  lemma ReadBack(pre: seq<Byte>, e: Entry, post: seq<Byte>, profile: int)
    requires EntryOk(e, profile)
    ensures ReadEntry(pre + EncodeEntry(e) + post, |pre|) == Ok((e, |pre| + |EncodeEntry(e)|))
  {
    hide Allowed, PathOf, U16, U32, Get16, Get32, EncodeEntry;
    var img, o, n, d := pre + EncodeEntry(e) + post, |pre|, |e.name|, |e.data|;
    Layout(pre, e, post);
    NumbersRoundTrip(n, img, o);
    NumbersRoundTrip(d, img, o + 2 + n);
  }

  /** Where the parts of an entry lie in the image. */
  lemma Layout(pre: seq<Byte>, e: Entry, post: seq<Byte>)
    requires |e.name| < 0x1_0000 && |e.data| < 0x1_0000_0000
    ensures var img, o, n, d := pre + EncodeEntry(e) + post, |pre|, |e.name|, |e.data|;
            && |EncodeEntry(e)| == 6 + n + d && |img| == o + 6 + n + d + |post|
            && img[o..o + 2] == U16(n) && img[o + 2..o + 2 + n] == e.name
            && img[o + 2 + n..o + 2 + n + 4] == U32(d) && img[o + 6 + n..o + 6 + n + d] == e.data
  {
    hide U16, U32;
    var img, u, v := pre + EncodeEntry(e) + post, U16(|e.name|), U32(|e.data|);
    assert img == pre + u + (e.name + v + e.data + post);
    Slice(pre, u, e.name + v + e.data + post);
    assert img == (pre + u) + e.name + (v + e.data + post);
    Slice(pre + u, e.name, v + e.data + post);
    assert img == (pre + u + e.name) + v + (e.data + post);
    Slice(pre + u + e.name, v, e.data + post);
    assert img == (pre + u + e.name + v) + e.data + post;
    Slice(pre + u + e.name + v, e.data, post);
  }

  lemma Slice(a: seq<Byte>, b: seq<Byte>, c: seq<Byte>)
    ensures (a + b + c)[|a|..|a| + |b|] == b
  {
  }

  lemma {:induction false} ParseBack(pre: seq<Byte>, es: seq<Entry>, profile: int)
    requires forall i :: 0 <= i < |es| ==> EntryOk(es[i], profile)
    ensures Encodable(es) && Parse(pre + EncodeAll(es), |pre|, |es|, profile) == Ok(es)
    decreases |es|
  {
    hide Allowed, PathOf, ReadEntry, EncodeEntry;
    if es != [] {
      var first, rest := EncodeEntry(es[0]), EncodeAll(es[1..]);
      ReadBack(pre, es[0], rest, profile);
      assert pre + EncodeAll(es) == pre + first + rest;
      ParseBack(pre + first, es[1..], profile);
      assert [es[0]] + es[1..] == es;
    }
  }

  /** An image written from acceptable entries is accepted and gives them back. */
  lemma ImageRoundTrip(es: seq<Entry>, profile: int)
    requires |es| < 0x1_0000_0000 && forall i :: 0 <= i < |es| ==> EntryOk(es[i], profile)
    ensures Encodable(es) && ParseImage(Encode(es), profile) == Ok(es)
  {
    hide Parse, EncodeAll;
    var pre := Magic() + [0] + U32(|es|);
    var img := Encode(es);
    assert img == pre + EncodeAll(es) && |pre| == HEADER;
    assert img[..7] == Magic();
    assert img[8..12] == U32(|es|);
    NumbersRoundTrip(|es|, img, 8);
    ParseBack(pre, es, profile);
  }

  // ---- the validation loop ----

  /** The first loop of vfs_load_ramdisk. */
  method Validate(img: seq<Byte>, count: nat, profile: int) returns (r: Result<()>)
    ensures r == match Parse(img, HEADER, count, profile) case Err(e) => Err(e) case Ok(_) => Ok(())
  {
    hide Allowed, PathOf, ReadEntry;
    var off := HEADER;
    for i := 0 to count
      invariant Verdict(Parse(img, HEADER, count, profile)) == Verdict(Parse(img, off, count - i, profile))
    {
      var e := NextEntry(img, off);
      if e.Err? {
        return Err(e.error);
      }
      var (entry, next) := e.value;
      if IsDirName(entry.name) && entry.data != [] {
        return Err(Invalid);
      }
      var ok := PathAllowed(PathOf(entry.name), profile);
      if !ok {
        return Err(Denied);
      }
      off := next;
    }
    r := Ok(());
  }

  function Verdict(r: Result<seq<Entry>>): Result<()> {
    match r
    case Err(e) => Err(e)
    case Ok(_) => Ok(())
  }

  method NextEntry(img: seq<Byte>, off: nat) returns (r: Result<(Entry, nat)>)
    ensures r == ReadEntry(img, off)
  {
    if off + 2 > |img| {
      return Err(Io);
    }
    var nlen := Get16(img, off);
    var at := off + 2;
    if nlen == 0 || nlen >= PATH_MAX || at + nlen + 4 > |img| {
      return Err(Invalid);
    }
    var name := img[at..at + nlen];
    at := at + nlen;
    var dlen := Get32(img, at);
    at := at + 4;
    if at + dlen > |img| {
      return Err(Io);
    }
    r := Ok((Entry(name, img[at..at + dlen]), at + dlen));
  }
}
