/** AocInterfaceCheck: is every interface the driver expects present in the firmware's table?
    The search for each expected entry begins at a start that creeps forward over matches. */
module InterfaceCheck {
  import opened Machine

  const UUID_SIZE: nat := 16

  type Uuid = seq<u8>

  /** Entry k of a firmware table stored as consecutive bytes. */
  function Entry(addr: seq<u8>, k: nat): Uuid
    requires (k + 1) * UUID_SIZE <= |addr|
  {
    addr[k * UUID_SIZE..(k + 1) * UUID_SIZE]
  }

  function Table(addr: seq<u8>, last: nat): (t: seq<Uuid>)
    requires last * UUID_SIZE <= |addr|
    ensures |t| == last
  {
    seq(last, k requires 0 <= k < last => Entry(addr, k))
  }

  /** Whole entries in `size` bytes. */
  function EntryCount(size: int): nat {
    if size < 0 then 0 else size / UUID_SIZE
  }

  function FindFrom(table: seq<Uuid>, u: Uuid, start: nat): (i: nat)
    requires start <= |table|
    ensures start <= i <= |table| && (i < |table| ==> table[i] == u)
    ensures forall k | start <= k < i :: table[k] != u
    decreases |table| - start
  {
    if start == |table| || table[start] == u then start else FindFrom(table, u, start + 1)
  }

  /** The search from the given start on. */
  predicate Search(expected: seq<Uuid>, table: seq<Uuid>, start: nat)
    requires start <= |table|
  {
    expected == [] ||
    var i := FindFrom(table, expected[0], start);
    i < |table| && Search(expected[1..], table, if i == start then start + 1 else start)
  }

  ghost predicate AllPresent(expected: seq<Uuid>, table: seq<Uuid>) {
    forall u | u in expected :: u in table
  }

  ghost predicate NoDuplicates(expected: seq<Uuid>) {
    forall i, j | 0 <= i < j < |expected| :: expected[i] != expected[j]
  }

  /** One round of the search, from entry k on. */
  lemma SearchStep(expected: seq<Uuid>, k: nat, table: seq<Uuid>, start: nat)
    requires k < |expected| && start <= |table|
    ensures var i := FindFrom(table, expected[k], start);
            Search(expected[k..], table, start) <==>
            i < |table| && Search(expected[k + 1..], table, if i == start then start + 1 else start)
  {
    assert expected[k..][1..] == expected[k + 1..];
  }

  /** The outer loop; C division of the byte count leaves no entry when it is negative. */
  method Check(expected: seq<Uuid>, addr: seq<u8>, size: int) returns (rc: int)
    requires size <= |addr| && forall u | u in expected :: |u| == UUID_SIZE
    ensures rc == if Search(expected, Table(addr, EntryCount(size)), 0) then 0 else -1
  {
    ghost var table := Table(addr, EntryCount(size));
    var start, entry := 0, 0;
    var last := if size < 0 then -((-size) / UUID_SIZE) else size / UUID_SIZE;
    assert Max(last, 0) == EntryCount(size);
    rc := 0;
    while entry < |expected|
      invariant 0 <= entry <= |expected| && start <= |table|
      invariant rc == 0 ==> Search(expected, table, 0) == Search(expected[entry..], table, start)
      invariant rc == -1 ==> last < 0 && !Search(expected, table, 0)
      invariant rc == 0 || rc == -1
    {
      SearchStep(expected, entry, table, start);
      var index, found := Locate(expected[entry], addr, start, last, table);
      rc := if found then 0 else -1;
      if found && index == start {
        start := start + 1;
      }
      if index == last {
        return -1;
      }
      entry := entry + 1;
    }
  }

  /** The middle loop. */
  method Locate(uuid: Uuid, addr: seq<u8>, start: nat, last: int, ghost table: seq<Uuid>)
    returns (index: int, found: bool)
    requires |uuid| == UUID_SIZE && Max(last, 0) * UUID_SIZE <= |addr|
    requires table == Table(addr, Max(last, 0)) && start <= |table|
    ensures index == FindFrom(table, uuid, start) && (found <==> index < |table|)
  {
    index, found := start, false;
    while index < last
      invariant start <= index <= FindFrom(table, uuid, start) && !found
    {
      assert table[index] == Entry(addr, index);
      found := SameBytes(uuid, addr, index);
      if found {
        break;
      }
      index := index + 1;
    }
  }

  /** The innermost loop. */
  method SameBytes(uuid: Uuid, addr: seq<u8>, index: nat) returns (same: bool)
    requires |uuid| == UUID_SIZE && (index + 1) * UUID_SIZE <= |addr|
    ensures same <==> Entry(addr, index) == uuid
  {
    var j := 0;
    while j < UUID_SIZE && uuid[j] == addr[index * UUID_SIZE + j]
      invariant 0 <= j <= UUID_SIZE && uuid[..j] == Entry(addr, index)[..j]
    {
      j := j + 1;
    }
    same := j == UUID_SIZE;
    assert !same ==> Entry(addr, index)[j] != uuid[j];
  }

  lemma {:induction false} SearchSound(expected: seq<Uuid>, table: seq<Uuid>, start: nat)
    requires start <= |table| && Search(expected, table, start)
    ensures AllPresent(expected, table)
    decreases expected
  {
    if expected != [] {
      var i := FindFrom(table, expected[0], start);
      SearchSound(expected[1..], table, if i == start then start + 1 else start);
    }
  }

  /** Entries before the start are never needed again: each matched an expected entry that is
      behind, and no expected entry comes twice. */
  lemma {:induction false} SearchComplete(expected: seq<Uuid>, table: seq<Uuid>, start: nat)
    requires start <= |table| && NoDuplicates(expected) && AllPresent(expected, table)
    requires forall u | u in expected :: u !in table[..start]
    ensures Search(expected, table, start)
    decreases expected
  {
    if expected != [] {
      var u, rest := expected[0], expected[1..];
      var i := FindFrom(table, u, start);
      assert u in expected && u in table[start..] by { assert table == table[..start] + table[start..]; }
      assert i < |table|;
      if i == start {
        assert table[..start + 1] == table[..start] + [u];
      }
      SearchComplete(rest, table, if i == start then start + 1 else start);
    }
  }

  /** Without duplicates the check is exact, whatever the order and length of the table. */
  lemma SearchIffPresent(expected: seq<Uuid>, table: seq<Uuid>)
    ensures Search(expected, table, 0) ==> AllPresent(expected, table)
    ensures NoDuplicates(expected) ==> (Search(expected, table, 0) <==> AllPresent(expected, table))
  {
    if Search(expected, table, 0) {
      SearchSound(expected, table, 0);
    } else if NoDuplicates(expected) && AllPresent(expected, table) {
      SearchComplete(expected, table, 0);
    }
  }

  /** AocInterfaceCheck: 0 exactly when every expected entry occurs, if none repeats; never 0
      when one is missing. */
  method InterfaceCheck(expected: seq<Uuid>, addr: seq<u8>, size: int) returns (rc: int)
    requires size <= |addr| && forall u | u in expected :: |u| == UUID_SIZE
    ensures rc == 0 || rc == -1
    ensures rc == 0 ==> AllPresent(expected, Table(addr, EntryCount(size)))
    ensures NoDuplicates(expected) && AllPresent(expected, Table(addr, EntryCount(size))) ==> rc == 0
  {
    SearchIffPresent(expected, Table(addr, EntryCount(size)));
    rc := Check(expected, addr, size);
  }

  function Without(s: seq<Uuid>, u: Uuid): (r: seq<Uuid>)
    ensures u !in r
    ensures forall x | x in s && x != u :: x in r
  {
    if s == [] then [] else (if s[0] == u then [] else [s[0]]) + Without(s[1..], u)
  }

  /** Expected entries that open the table in the same order are matched one by one. */
  lemma {:induction false} SearchCreeps(expected: seq<Uuid>, table: seq<Uuid>, k: nat, j: nat)
    requires k <= j <= |expected| && j <= |table| && expected[..j] == table[..j]
    ensures Search(expected[k..], table, k) == Search(expected[j..], table, j)
    decreases j - k
  {
    if k < j {
      assert expected[k] == expected[..j][k] == table[..j][k] == table[k];
      assert expected[k..][1..] == expected[k + 1..];
      SearchCreeps(expected, table, k + 1, j);
    }
  }

  ghost predicate ExactForAllTables(expected: seq<Uuid>) {
    forall table :: Search(expected, table, 0) <==> AllPresent(expected, table)
  }

  /** The check decides presence for every table if and only if no expected entry repeats. */
  lemma ExactIffNoDuplicates(expected: seq<Uuid>)
    ensures ExactForAllTables(expected) <==> NoDuplicates(expected)
  {
    if NoDuplicates(expected) {
      forall table
        ensures Search(expected, table, 0) <==> AllPresent(expected, table)
      {
        SearchIffPresent(expected, table);
      }
    } else {
      var i, j :| 0 <= i < j < |expected| && expected[i] == expected[j];
      var u := expected[j];
      var table := expected[..j] + Without(expected[j + 1..], u);
      RepeatIsMissed(expected, i, j);
      forall x | x in expected
        ensures x in table
      {
        var k :| 0 <= k < |expected| && expected[k] == x;
        if k < j {
          assert table[k] == x;
        } else if x == u {
          assert table[i] == x;
        } else {
          assert x == expected[j + 1..][k - j - 1];
        }
      }
    }
  }

  lemma RepeatIsMissed(expected: seq<Uuid>, i: nat, j: nat)
    requires i < j < |expected| && expected[i] == expected[j]
    ensures !Search(expected, expected[..j] + Without(expected[j + 1..], expected[j]), 0)
  {
    var u := expected[j];
    var rest := Without(expected[j + 1..], u);
    var table := expected[..j] + rest;
    assert expected[0..] == expected && table[..j] == expected[..j];
    SearchCreeps(expected, table, 0, j);
    var f := FindFrom(table, u, j);
    assert forall k | j <= k < |table| :: table[k] == rest[k - j];
  }
}
