/** The pure parts of crates/cftp/src/handler.rs: the passive-connection
    record and the 227 reply it announces, and the permission, link-count
    and size columns of a `LIST` line. The handler trait itself is the
    server's environment; its results reach the session model as inputs. */
module Handler {
  import opened Wrappers
  import opened Uint
  import opened Text
  import Code

  // ---------------------------------------------------------------------
  // Passive connections
  // ---------------------------------------------------------------------

  /** `std::net::IpAddr`. An IPv6 address is kept as its eight 16-bit
      segments. */
  datatype IpAddr = V4(octets: Code.Ipv4Addr) | V6(segments: seq<u16>)

  /** `std::net::SocketAddr`: an address and a port. */
  datatype SocketAddr = SocketAddr(ip: IpAddr, port: u16)

  /** `PassiveConn`: the factory that opens data connections, and the
      address the client is told to connect to. */
  datatype PassiveConn<F> = PassiveConn(ioFactory: F, addr: SocketAddr)

  /** `PassiveConn::new`. */
  function NewPassiveConn<F>(addr: SocketAddr, ioFactory: F): PassiveConn<F> {
    PassiveConn(ioFactory, addr)
  }

  /** `PassiveConn::into_inner`: the factory, without the address. */
  function IntoInner<F>(c: PassiveConn<F>): F {
    c.ioFactory
  }

  /** Taking a connection apart gives back the factory it was built from. */
  lemma IntoInnerOfNew<F>(addr: SocketAddr, ioFactory: F)
    ensures IntoInner(NewPassiveConn(addr, ioFactory)) == ioFactory
  {
  }

  /** `PassiveConn::to_reply`: the 227 reply for an IPv4 address; nothing
      for an IPv6 one, which the PASV reply format cannot carry. */
  function ToReply<F>(c: PassiveConn<F>): (r: Option<Code.FtpResponse>)
    ensures r.None? <==> c.addr.ip.V6?
    ensures r.Some? ==> r.value.EnteringPassiveMode? && r.value.Code() == 227
  {
    match c.addr.ip
    case V4(ip) => Some(Code.EnteringPassiveMode(ip, Code.Port(c.addr.port)))
    case V6(_) => None
  }

  /** A client that reads the 227 reply finds the IPv4 address and the port
      the connection listens on. */
  lemma ToReplyAnnouncesAddress<F>(c: PassiveConn<F>)
    requires c.addr.ip.V4?
    ensures ToReply(c).Some?
    ensures Code.ParsePassiveReply(Code.ReplyText(ToReply(c).value))
            == Some((c.addr.ip.octets, Code.Port(c.addr.port)))
  {
    Code.PassiveReplyRoundTrip(c.addr.ip.octets, Code.Port(c.addr.port));
  }

  // ---------------------------------------------------------------------
  // LIST lines
  // ---------------------------------------------------------------------

  /** `FileListing`, without its modification time: the month, day and
      time-or-year columns depend on the clock and are passed to
      `ListingLine` as text. */
  datatype FileListing = FileListing(
    name: string,
    isDir: bool,
    permissions: u16,
    size: u64,
    owner: string,
    group: string)

  /** The permission bit read by the `k`-th of the nine `rwx` positions:
      owner read (octal 400) down to other execute (octal 1). */
  function PermissionBit(k: nat): (b: bv16)
    requires k < 9
  {
    (0x100 as bv16) >> k
  }

  /** The letter shown when bit `k` is set. */
  function PermissionLetter(k: nat): char
    requires k < 9
  {
    "rwx"[k % 3]
  }

  /** One `rwx` position: the letter when the bit `mask` is set, else `-`. */
  function Flag(permissions: u16, mask: bv16, letter: char): char {
    if (permissions as bv16) & mask != 0 then letter else '-'
  }

  /** The ten-character mode column of `FileListing`'s `Display`: `d` or
      `-`, then the nine flags, each read from its own octal mask. */
  function PermissionString(isDir: bool, permissions: u16): (r: string)
    ensures |r| == 10
    ensures r[0] == (if isDir then 'd' else '-')
  {
    var p := permissions;
    [if isDir then 'd' else '-',
     Flag(p, 0x100, 'r'), Flag(p, 0x80, 'w'), Flag(p, 0x40, 'x'),
     Flag(p, 0x20, 'r'), Flag(p, 0x10, 'w'), Flag(p, 0x8, 'x'),
     Flag(p, 0x4, 'r'), Flag(p, 0x2, 'w'), Flag(p, 0x1, 'x')]
  }

  /** Position `k + 1` shows the `k`-th letter of `rwxrwxrwx` exactly when
      the bit `0o400 >> k` is set. */
  lemma PermissionStringFlags(isDir: bool, permissions: u16)
    ensures var r := PermissionString(isDir, permissions);
      forall k :: 0 <= k < 9 ==>
        r[k + 1] == if (permissions as bv16) & PermissionBit(k) != 0 then PermissionLetter(k) else '-'
  {
    var r := PermissionString(isDir, permissions);
    forall k | 0 <= k < 9
      ensures r[k + 1] == if (permissions as bv16) & PermissionBit(k) != 0 then PermissionLetter(k) else '-'
    {
      FlagAt(isDir, permissions, k);
    }
  }

  /** `PermissionStringFlags` for one position. */
  lemma FlagAt(isDir: bool, permissions: u16, k: nat)
    requires k < 9
    ensures PermissionString(isDir, permissions)[k + 1]
            == Flag(permissions, PermissionBit(k), PermissionLetter(k))
  {
    PermissionBits();
    if k == 0 { assert PermissionLetter(k) == 'r'; }
    else if k == 1 { assert PermissionLetter(k) == 'w'; }
    else if k == 2 { assert PermissionLetter(k) == 'x'; }
    else if k == 3 { assert PermissionLetter(k) == 'r'; }
    else if k == 4 { assert PermissionLetter(k) == 'w'; }
    else if k == 5 { assert PermissionLetter(k) == 'x'; }
    else if k == 6 { assert PermissionLetter(k) == 'r'; }
    else if k == 7 { assert PermissionLetter(k) == 'w'; }
    else { assert PermissionLetter(k) == 'x'; }
  }

  /** The nine masks, spelled out. */
  lemma PermissionBits()
    ensures PermissionBit(0) == 0x100 && PermissionBit(1) == 0x80 && PermissionBit(2) == 0x40
    ensures PermissionBit(3) == 0x20 && PermissionBit(4) == 0x10 && PermissionBit(5) == 0x8
    ensures PermissionBit(6) == 0x4 && PermissionBit(7) == 0x2 && PermissionBit(8) == 0x1
  {
  }

  /** Only the low nine bits matter: set-user-ID, set-group-ID, sticky and
      file-type bits never show. */
  lemma PermissionStringLowBitsOnly(isDir: bool, p: u16, q: u16)
    requires (p as bv16) & 0x1FF == (q as bv16) & 0x1FF
    ensures PermissionString(isDir, p) == PermissionString(isDir, q)
  {
    PermissionBits();
    var a, b := PermissionString(isDir, p), PermissionString(isDir, q);
    PermissionStringFlags(isDir, p);
    PermissionStringFlags(isDir, q);
    forall i | 1 <= i < 10 ensures a[i] == b[i] {
      SameMaskedBit(p as bv16, q as bv16, PermissionBit(i - 1));
    }
  }

  /** The column tells the low nine bits apart: two permission words
      give the same column exactly when they agree on those bits. */
  lemma PermissionStringShowsLowBits(isDir: bool, p: u16, q: u16)
    ensures PermissionString(isDir, p) == PermissionString(isDir, q)
            <==> (p as bv16) & 0x1FF == (q as bv16) & 0x1FF
  {
    if (p as bv16) & 0x1FF == (q as bv16) & 0x1FF {
      PermissionStringLowBitsOnly(isDir, p, q);
    }
    if PermissionString(isDir, p) == PermissionString(isDir, q) {
      PermissionBits();
      PermissionStringFlags(isDir, p);
      PermissionStringFlags(isDir, q);
      SameBits(p as bv16, q as bv16);
    }
  }

  /** Words that agree on each of the nine bits agree on all of them. */
  lemma SameBits(p: bv16, q: bv16)
    requires (p & 0x100 != 0 <==> q & 0x100 != 0) && (p & 0x80 != 0 <==> q & 0x80 != 0)
    requires (p & 0x40 != 0 <==> q & 0x40 != 0) && (p & 0x20 != 0 <==> q & 0x20 != 0)
    requires (p & 0x10 != 0 <==> q & 0x10 != 0) && (p & 0x8 != 0 <==> q & 0x8 != 0)
    requires (p & 0x4 != 0 <==> q & 0x4 != 0) && (p & 0x2 != 0 <==> q & 0x2 != 0)
    requires p & 0x1 != 0 <==> q & 0x1 != 0
    ensures p & 0x1FF == q & 0x1FF
  {
  }

  lemma SameMaskedBit(p: bv16, q: bv16, m: bv16)
    requires p & 0x1FF == q & 0x1FF && m & 0x1FF == m
    ensures (p & m != 0) <==> (q & m != 0)
  {
    assert p & m == (p & 0x1FF) & m;
    assert q & m == (q & 0x1FF) & m;
  }

  /** The link-count column: always `1`, right-aligned in two columns. */
  function LinkColumn(): (r: string)
    ensures r == " 1"
  {
    PadLeftShape("1", 2);
    PadLeft("1", 2)
  }

  /** The size column: the decimal size right-aligned in at least eight
      columns, never cut short. */
  function SizeColumn(size: u64): string {
    PadLeft(Decimal(size as nat), 8)
  }

  /** The size column is at least eight wide, ends with the decimal size
      and is padded with spaces in front. */
  lemma SizeColumnShape(size: u64)
    ensures var r := SizeColumn(size);
      && |r| >= 8 && |r| >= |Decimal(size as nat)|
      && r[|r| - |Decimal(size as nat)|..] == Decimal(size as nat)
      && forall i :: 0 <= i < |r| - |Decimal(size as nat)| ==> r[i] == ' '
  {
    PadLeftShape(Decimal(size as nat), 8);
  }

  /** Reading the number at the end of the size column gives the size. */
  lemma SizeColumnReadsBack(size: u64)
    ensures var r := SizeColumn(size);
      ReadNat(r[|r| - |Decimal(size as nat)|..]) == Some((size as nat, ""))
  {
    SizeColumnShape(size);
    ReadNatDecimal(size as nat, "");
    assert Decimal(size as nat) + "" == Decimal(size as nat);
  }

  /** Two columns separated by one space. */
  function Spaced(a: string, b: string): string {
    a + " " + b
  }

  /** `FileListing`'s `Display`, with the three clock-dependent columns
      supplied as `dates`: mode, link count, owner, group, size, dates and
      name, separated by single spaces. */
  function ListingLine(l: FileListing, dates: string): string {
    Spaced(PermissionString(l.isDir, l.permissions),
      Spaced(LinkColumn(),
        Spaced(l.owner,
          Spaced(l.group,
            Spaced(SizeColumn(l.size),
              Spaced(dates, l.name))))))
  }

  /** The left column is a prefix, and the right column the rest after one
      space. */
  lemma SpacedParts(a: string, b: string)
    ensures var r := Spaced(a, b);
      && |r| == |a| + 1 + |b|
      && r[..|a|] == a && r[|a|] == ' ' && r[|a| + 1..] == b
  {
    var r := Spaced(a, b);
    assert r[..|a|] == a;
    assert r[|a| + 1..] == b;
  }

  /** The line opens with the mode column, then the link count `1` in a
      two-column field, then the owner; it ends with the name. */
  lemma ListingLineStart(l: FileListing, dates: string)
    ensures var r := ListingLine(l, dates);
      && |r| >= 14 + |l.owner| + |l.name|
      && r[..10] == PermissionString(l.isDir, l.permissions)
      && r[10..14] == "  1 "
      && r[14..14 + |l.owner|] == l.owner
      && r[|r| - |l.name|..] == l.name
  {
    LineParts(PermissionString(l.isDir, l.permissions), LinkColumn(), l.owner, l.group,
      SizeColumn(l.size), dates, l.name);
  }

  /** `ListingLineStart` for any column texts. */
  lemma LineParts(mode: string, links: string, owner: string, group: string,
                  size: string, dates: string, name: string)
    requires |mode| == 10 && links == " 1"
    ensures var r := Spaced(mode, Spaced(links, Spaced(owner, Spaced(group,
                       Spaced(size, Spaced(dates, name))))));
      && |r| >= 14 + |owner| + |name|
      && r[..10] == mode
      && r[10..14] == "  1 "
      && r[14..14 + |owner|] == owner
      && r[|r| - |name|..] == name
  {
    var c := Spaced(group, Spaced(size, Spaced(dates, name)));
    LineHead(mode, links, owner, c);
    EndsWithName(owner, group, size, dates, name);
    var b := Spaced(owner, c);
    var a := Spaced(links, b);
    SpacedParts(links, b);
    SpacedParts(mode, a);
    EndsWith(Spaced(mode, a), a, name);
    EndsWith(a, b, name);
  }

  lemma LineHead(mode: string, links: string, owner: string, c: string)
    requires |mode| == 10 && links == " 1"
    ensures var r := Spaced(mode, Spaced(links, Spaced(owner, c)));
      && |r| >= 14 + |owner|
      && r[..10] == mode
      && r[10..14] == "  1 "
      && r[14..14 + |owner|] == owner
  {
    var b := Spaced(owner, c);
    var a := Spaced(links, b);
    var r := Spaced(mode, a);
    SpacedParts(mode, a);
    SpacedParts(links, b);
    SpacedParts(owner, c);
    assert r[11..] == a;
    assert r[10..14] == "  1 " by {
      assert r[10] == ' ' && r[11] == ' ' && r[12] == '1' && r[13] == ' ';
    }
    assert r[14..] == b;
    assert r[14..14 + |owner|] == b[..|owner|];
  }

  lemma EndsWithName(owner: string, group: string, size: string, dates: string, name: string)
    ensures var b := Spaced(owner, Spaced(group, Spaced(size, Spaced(dates, name))));
      |b| >= |name| && b[|b| - |name|..] == name
  {
    var e := Spaced(dates, name);
    var d := Spaced(size, e);
    var c := Spaced(group, d);
    assert name[0..] == name;
    SpacedEnds(dates, name, name);
    SpacedEnds(size, e, name);
    SpacedEnds(group, d, name);
    SpacedEnds(owner, c, name);
  }

  /** A column that ends a text also ends the text with another column
      in front of it. */
  lemma SpacedEnds(a: string, b: string, n: string)
    requires |n| <= |b| && b[|b| - |n|..] == n
    ensures var r := Spaced(a, b); |n| <= |r| && r[|r| - |n|..] == n
  {
    var r := Spaced(a, b);
    assert r == (a + " ") + b;
    assert r[|r| - |b|..] == b;
    EndsWith(r, b, n);
  }

  /** A suffix of a suffix is a suffix. */
  lemma EndsWith(r: string, a: string, n: string)
    requires |a| <= |r| && r[|r| - |a|..] == a
    requires |n| <= |a| && a[|a| - |n|..] == n
    ensures r[|r| - |n|..] == n
  {
    assert r[|r| - |n|..] == r[|r| - |a|..][|a| - |n|..];
  }
}
