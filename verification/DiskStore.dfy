/**
 * The directory of address files: backend.go. A file is named after its address and holds
 * the container id and interface name; files of older versions hold the id alone.
 */
module DiskStore {
  import opened Wrappers
  import opened Cidr

  datatype Content = Entry(id: string, ifname: string) | OldEntry(id: string)

  type Files = map<IP, Content>

  /** The file an address is kept in: both forms of an IPv4 address print alike. */
  function FileKey(ip: IP): IP {
    To4(ip).GetOr(ip)
  }

  /** Two addresses have one file exactly if net.IP.Equal says that they are the same. */
  lemma SameFile(a: IP, b: IP)
    requires (|a| == 4 || |a| == 16) && (|b| == 4 || |b| == 16)
    ensures FileKey(a) == FileKey(b) <==> Equal(a, b)
  {
    assert |a| == 16 ==> a == a[..12] + a[12..];
    assert |b| == 16 ==> b == b[..12] + b[12..];
    assert (V4_IN_V6_PREFIX + a)[..12] == (V4_IN_V6_PREFIX + b)[..12] == V4_IN_V6_PREFIX;
    assert (V4_IN_V6_PREFIX + a)[12..] == a && (V4_IN_V6_PREFIX + b)[12..] == b;
  }

  /** Reading a printed address back gives its 16-byte form, or nothing if it is no address. */
  function ParseIP(key: IP): Option<IP> {
    To16(key)
  }

  /** The file of an address, however the address was written, reads back as its 16-byte form. */
  lemma ReadBack(ip: IP)
    requires |ip| == 4 || |ip| == 16
    ensures ParseIP(FileKey(ip)).Some?
    ensures var back := ParseIP(FileKey(ip)).value; |back| == 16 && Equal(back, ip)
  {
    assert |ip| == 16 ==> ip == ip[..12] + ip[12..];
  }

  /** A file counts as held by (id, ifname) when it names both, or the id alone in the old style. */
  predicate Matches(c: Content, id: string, ifname: string) {
    c == Entry(id, ifname) || c == OldEntry(id)
  }

  function Without(files: Files, content: Content): Files {
    map k | k in files && files[k] != content :: files[k]
  }

  /** What ReleaseByID leaves: the new-style entries go, or, if there were none, the old-style ones. */
  function Released(files: Files, id: string, ifname: string): Files {
    if Entry(id, ifname) in files.Values then Without(files, Entry(id, ifname)) else Without(files, OldEntry(id))
  }

  class Store {
    var files: Files
    /** The last reserved address of each range set, as written to its file. */
    var last: map<nat, IP>

    constructor ()
      ensures files == map[] && last == map[]
    {
      files, last := map[], map[];
    }

    method Reserve(id: string, ifname: string, ip: IP, rangeID: nat) returns (reserved: bool)
      modifies this
      ensures reserved <==> FileKey(ip) !in old(files)
      ensures reserved ==>
        files == old(files)[FileKey(ip) := Entry(id, ifname)] && last == old(last)[rangeID := FileKey(ip)]
      ensures !reserved ==> files == old(files) && last == old(last)
    {
      if FileKey(ip) in files {
        return false;
      }
      files := files[FileKey(ip) := Entry(id, ifname)];
      last := last[rangeID := FileKey(ip)];
      return true;
    }

    method LastReservedIP(rangeID: nat) returns (ip: Option<IP>)
      ensures ip == if rangeID in last then ParseIP(last[rangeID]) else None
    {
      if rangeID !in last {
        return None;
      }
      return ParseIP(last[rangeID]);
    }

    method ReleaseByKey(content: Content) returns (found: bool)
      modifies `files
      ensures found <==> content in old(files).Values
      ensures files == Without(old(files), content)
    {
      found := false;
      var todo := files.Keys;
      while todo != {}
        invariant todo <= files.Keys <= old(files).Keys
        invariant forall k :: k in files ==> files[k] == old(files)[k]
        invariant forall k :: k in old(files) && k !in files ==> old(files)[k] == content
        invariant forall k :: k in files && k !in todo ==> files[k] != content
        invariant found <==> files != old(files)
        decreases |todo|
      {
        var k :| k in todo;
        todo := todo - {k};
        if files[k] == content {
          files := map j | j in files && j != k :: files[j];
          found := true;
        }
      }
      assert files == Without(old(files), content);
      if content in old(files).Values {
        var k :| k in old(files) && old(files)[k] == content;
        assert k !in files;
      } else {
        assert files == old(files);
      }
    }

    /** Old-style entries are looked for only when no new-style entry was found. */
    method ReleaseByID(id: string, ifname: string)
      modifies `files
      ensures files == Released(old(files), id, ifname)
    {
      var found := ReleaseByKey(Entry(id, ifname));
      if !found {
        assert files == old(files);
        found := ReleaseByKey(OldEntry(id));
      }
    }

    method GetByID(id: string, ifname: string) returns (ips: seq<IP>)
      ensures forall ip :: ip in ips <==>
        exists k :: k in files && (files[k] == Entry(id, ifname) || files[k] == OldEntry(id)) && ParseIP(k) == Some(ip)
    {
      hide To16;
      ips := [];
      var todo := files.Keys;
      while todo != {}
        invariant todo <= files.Keys
        invariant forall ip :: ip in ips <==>
          exists k :: k in files && k !in todo && Matches(files[k], id, ifname) && ParseIP(k) == Some(ip)
        decreases |todo|
      {
        var k :| k in todo;
        todo := todo - {k};
        if Matches(files[k], id, ifname) && ParseIP(k).Some? {
          ips := ips + [ParseIP(k).value];
        }
      }
    }
  }

  /** What n releases in a row leave. */
  function ReleasedTimes(files: Files, id: string, ifname: string, n: nat): Files {
    if n == 0 then files else Released(ReleasedTimes(files, id, ifname, n - 1), id, ifname)
  }

  lemma WithoutNothing(files: Files, c: Content)
    ensures Without(files, c) == files <==> c !in files.Values
    ensures c !in Without(files, c).Values
  {
    var rest := Without(files, c);
    if c in files.Values {
      var k :| k in files && files[k] == c;
      assert k !in rest;
    } else {
      assert forall k :: k in files ==> files[k] in files.Values;
      assert rest == files;
    }
    assert forall k :: k in rest ==> rest[k] != c;
  }

  lemma OtherEntriesKept(files: Files, c: Content, d: Content)
    requires c != d
    ensures d in Without(files, c).Values <==> d in files.Values
  {
    var rest := Without(files, c);
    if d in files.Values {
      var k :| k in files && files[k] == d;
      assert k in rest && rest[k] == d;
    }
    if d in rest.Values {
      var k :| k in rest && rest[k] == d;
      assert k in files && files[k] == d;
    }
  }

  /** The first release takes the new-style entries if there are any; the second then takes the old-style ones. */
  lemma {:induction false} ReleasedTimesExact(files: Files, id: string, ifname: string, n: nat)
    ensures n == 1 && Entry(id, ifname) in files.Values ==>
      ReleasedTimes(files, id, ifname, n) == Without(files, Entry(id, ifname))
    ensures n >= 1 && Entry(id, ifname) !in files.Values ==>
      ReleasedTimes(files, id, ifname, n) == Without(files, OldEntry(id))
    ensures n >= 2 ==>
      ReleasedTimes(files, id, ifname, n) == Without(Without(files, Entry(id, ifname)), OldEntry(id))
  {
    hide Without;
    if n > 0 {
      ReleasedTimesExact(files, id, ifname, n - 1);
      var e, o := Entry(id, ifname), OldEntry(id);
      WithoutNothing(files, e);
      WithoutNothing(Without(files, e), o);
      WithoutNothing(Without(files, o), o);
      WithoutNothing(Without(Without(files, e), o), o);
      OtherEntriesKept(files, o, e);
      OtherEntriesKept(Without(files, e), o, e);
      assert ReleasedTimes(files, id, ifname, 0) == files;
    }
  }
}
