/**
 * Choosing the mounts offered as scan roots: on unix, devices mounted from "/dev/"
 * other than the EFI system partitions; elsewhere every mount.
 */
module Mounts {
  import opened Wrappers

  /** The two fields of a listed file system the choice looks at. */
  datatype Filesystem = Filesystem(mountedFrom: string, mountedOn: string)

  predicate StartsWith(s: string, prefix: string) {
    |prefix| <= |s| && s[..|prefix|] == prefix
  }

  /** Where EFI system partitions are mounted. */
  const EfiMountPoints: set<string> := {"/esp", "/efi", "/boot/efi"}

  /** Whether `get_mounts` keeps `m`; `unix` is the platform the program was built for. */
  predicate Keep(unix: bool, m: Filesystem): (r: bool)
    ensures r && unix ==> StartsWith(m.mountedFrom, "/dev/")
    ensures unix && m.mountedOn in EfiMountPoints ==> !r
    ensures unix && StartsWith(m.mountedFrom, "/dev/") && m.mountedOn !in EfiMountPoints ==> r
    ensures !unix ==> r
  {
    if unix then
      StartsWith(m.mountedFrom, "/dev/")
      && m.mountedOn != "/esp"
      && m.mountedOn != "/efi"
      && m.mountedOn != "/boot/efi"
    else true
  }

  /** The mounts of `ms` that are kept, in their order. */
  function FilterMounts(unix: bool, ms: seq<Filesystem>): (r: seq<Filesystem>)
    ensures forall k :: 0 <= k < |r| ==> Keep(unix, r[k])
    ensures forall m :: multiset(r)[m] == if Keep(unix, m) then multiset(ms)[m] else 0
  {
    if ms == [] then []
    else
      assert ms == [ms[0]] + ms[1..];
      (if Keep(unix, ms[0]) then [ms[0]] else []) + FilterMounts(unix, ms[1..])
  }

  /** `a` is `b` with some elements left out, the rest in order. */
  predicate Subsequence<T(==)>(a: seq<T>, b: seq<T>)
    decreases |b|
  {
    if a == [] then true
    else if b == [] then false
    else (a[0] == b[0] && Subsequence(a[1..], b[1..])) || Subsequence(a, b[1..])
  }

  /** The kept mounts keep the order of the list. */
  lemma {:induction false} FilterIsSubsequence(unix: bool, ms: seq<Filesystem>)
    ensures Subsequence(FilterMounts(unix, ms), ms)
    decreases |ms|
  {
    if ms != [] {
      FilterIsSubsequence(unix, ms[1..]);
      var rest := FilterMounts(unix, ms[1..]);
      if Keep(unix, ms[0]) {
        assert ([ms[0]] + rest)[1..] == rest;
      } else {
        assert [] + rest == rest;
      }
    }
  }

  /** Off unix nothing is filtered out. */
  lemma {:induction false} NonUnixKeepsAll(ms: seq<Filesystem>)
    ensures FilterMounts(false, ms) == ms
    decreases |ms|
  {
    if ms != [] {
      NonUnixKeepsAll(ms[1..]);
    }
  }

  /** `get_mounts`: the kept mounts of the listing, or none when listing fails. */
  function GetMounts(unix: bool, listed: Result<seq<Filesystem>, string>): (r: seq<Filesystem>)
    ensures listed.Failure? ==> r == []
    ensures listed.Success? ==> r == FilterMounts(unix, listed.value)
  {
    match listed
    case Failure(_) => []
    case Success(ms) => FilterMounts(unix, ms)
  }

  /** The EFI system partition is not offered even when mounted from a device. */
  lemma EspLeftOut()
    ensures GetMounts(true, Success([Filesystem("/dev/sda1", "/boot/efi"), Filesystem("/dev/sda2", "/")]))
         == [Filesystem("/dev/sda2", "/")]
  {
    var ms := [Filesystem("/dev/sda1", "/boot/efi"), Filesystem("/dev/sda2", "/")];
    assert !Keep(true, ms[0]);
    assert "/dev/sda2"[..5] == "/dev/";
    assert Keep(true, ms[1]);
    assert ms[1..][1..] == [];
  }
}
