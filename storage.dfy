/**
 * The micro-SD card as the CAT sees it through the C stdio calls: named
 * files holding bytes, listed by the directory reader in the card's own
 * order, and a card that may refuse to create or remove files.
 */
module Storage {
  import opened Bus

  /** A file name as the bytes of the C string (no terminator). */
  type Name = seq<Byte>

  /**
   * `order` is the sequence in which `readdir` reports the entries; where a
   * newly created file appears in it is up to the card, and the model puts it
   * last. `writable` is false for a card that refuses `fopen(..., "wb")` and
   * `remove`.
   */
  datatype Card = Card(files: map<Name, seq<Byte>>, order: seq<Name>, writable: bool)

  predicate NoDuplicates(s: seq<Name>)
  {
    forall i, j :: 0 <= i < j < |s| ==> s[i] != s[j]
  }

  /** The listing names every file exactly once; no file has the empty name. */
  ghost predicate Valid(c: Card)
  {
    NoDuplicates(c.order)
    && (forall n :: n in c.files <==> n in c.order)
    && [] !in c.files
  }

  /** `SD_exists`: opening the file for reading succeeds. */
  predicate Exists(c: Card, name: Name)
  {
    name in c.files
  }

  /** `get_file_size`: the file's length, or 0 when it cannot be opened. */
  function FileSize(c: Card, name: Name): (n: nat)
    ensures !Exists(c, name) ==> n == 0
  {
    if name in c.files then |c.files[name]| else 0
  }

  /** Creating a new file (`fopen(..., "wb")`, writes, `fclose`). */
  function Create(c: Card, name: Name, data: seq<Byte>): (r: Card)
    requires Valid(c) && name != [] && !Exists(c, name)
    ensures Valid(r) && Exists(r, name) && r.files[name] == data
    ensures forall n :: n != name ==> (Exists(r, n) <==> Exists(c, n))
  {
    Card(c.files[name := data], c.order + [name], c.writable)
  }

  /** `s` with `name` taken out. */
  function Without(s: seq<Name>, name: Name): (r: seq<Name>)
    ensures forall n :: n in r <==> n in s && n != name
    ensures NoDuplicates(s) ==> NoDuplicates(r)
  {
    if s == [] then []
    else if s[0] == name then Without(s[1..], name)
    else
      assert NoDuplicates(s) ==> s[0] !in s[1..] && NoDuplicates(s[1..]) by {
        if NoDuplicates(s) {
          forall k | 0 <= k < |s| - 1 ensures s[1..][k] != s[0] { assert s[1..][k] == s[k + 1]; }
        }
      }
      var r := [s[0]] + Without(s[1..], name);
      assert forall k :: 1 <= k < |r| ==> r[k] in Without(s[1..], name);
      r
  }

  /** `remove`: deletes the file when the card allows it, and fails silently otherwise. */
  function Remove(c: Card, name: Name): (r: Card)
    requires Valid(c)
    ensures Valid(r)
    ensures c.writable ==> !Exists(r, name)
    ensures !c.writable ==> r == c
    ensures forall n :: n != name && Exists(c, n) ==> Exists(r, n) && r.files[n] == c.files[n]
  {
    if c.writable then Card(c.files - {name}, Without(c.order, name), c.writable) else c
  }

  /** Removing a file keeps the relative order of the others in the listing. */
  lemma {:induction false} WithoutKeepsOrder(s: seq<Name>, name: Name, i: int, j: int)
    requires 0 <= i < j < |s| && s[i] != name && s[j] != name
    ensures exists i', j' ::
              0 <= i' < j' < |Without(s, name)| && Without(s, name)[i'] == s[i] && Without(s, name)[j'] == s[j]
    decreases |s|
  {
    var w := Without(s, name);
    if i == 0 {
      assert w == [s[0]] + Without(s[1..], name);
      assert s[1..][j - 1] == s[j];
      var k :| 0 <= k < |Without(s[1..], name)| && Without(s[1..], name)[k] == s[j] by {
        assert s[j] in Without(s[1..], name);
      }
      assert w[0] == s[i] && w[k + 1] == s[j];
    } else {
      assert s[1..][i - 1] == s[i] && s[1..][j - 1] == s[j];
      WithoutKeepsOrder(s[1..], name, i - 1, j - 1);
      var i', j' :| 0 <= i' < j' < |Without(s[1..], name)|
        && Without(s[1..], name)[i'] == s[i] && Without(s[1..], name)[j'] == s[j];
      if s[0] == name {
        assert w == Without(s[1..], name);
      } else {
        assert w == [s[0]] + Without(s[1..], name);
        assert w[i' + 1] == s[i] && w[j' + 1] == s[j];
      }
    }
  }
}
