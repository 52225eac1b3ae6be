/** The field selection of `make_dataset_description`: the description is an
    ordered dictionary of nine fields in a fixed order, some strings split
    into lists, from which every field left `None` is popped. */
module Description {
  import opened Text
  import opened Values
  import Paths

  /** A field value: `None`, a string, or a list of strings. */
  datatype Field = Unset | TextValue(s: string) | Items(xs: seq<string>)

  /** The optional keyword arguments, in the order of the signature. */
  datatype DescriptionArgs = DescriptionArgs(
    name: Field, license: Field, authors: Field, acknowledgements: Field,
    howToAcknowledge: Field, funding: Field, referencesAndLinks: Field, doi: Field)

  /** The ordered dictionary `description` as a sequence of pairs. */
  type Dictionary = seq<(string, Field)>

  /** The keys of the description, in their fixed order. */
  const DescriptionKeys: seq<string> := [
    "Name", "BIDSVersion", "License", "Authors", "Acknowledgements",
    "HowToAcknowledge", "Funding", "ReferencesAndLinks", "DatasetDOI"]

  function Keys(d: Dictionary): (ks: seq<string>)
    ensures |ks| == |d| && forall i :: 0 <= i < |d| ==> ks[i] == d[i].0
  {
    seq(|d|, i requires 0 <= i < |d| => d[i].0)
  }

  predicate DistinctKeys(d: Dictionary) {
    forall i, j :: 0 <= i < j < |d| ==> d[i].0 != d[j].0
  }

  /** Lines 249-254: a string is split on `", "` into a list; a list or
      `None` is kept. Splitting loses nothing: the pieces joined back with
      `", "` give the string, and no piece holds a `", "`. */
  function SplitList(f: Field): (r: Field)
    ensures f.TextValue? ==> r.Items? && |r.xs| >= 1 && JoinWith(r.xs, ", ") == f.s
    ensures f.TextValue? ==> forall i, j :: 0 <= i < |r.xs| ==> !OccursAt(r.xs[i], ", ", j)
    ensures !f.TextValue? ==> r == f
  {
    if f.TextValue? then
      JoinSplit(f.s, ", ");
      SplitPiecesAvoidSeparator(f.s, ", ");
      Items(SplitOn(f.s, ", "))
    else f
  }

  /** The values of the description, key by key, before popping. */
  function FieldValues(version: string, args: DescriptionArgs): (vs: seq<Field>)
    ensures |vs| == |DescriptionKeys|
  {
    [args.name, TextValue(version), args.license, SplitList(args.authors),
     args.acknowledgements, args.howToAcknowledge, SplitList(args.funding),
     SplitList(args.referencesAndLinks), args.doi]
  }

  /** The `OrderedDict` of lines 257-265. */
  function Entries(version: string, args: DescriptionArgs): (d: Dictionary)
    ensures Keys(d) == DescriptionKeys
    ensures forall i :: 0 <= i < |d| ==> d[i].1 == FieldValues(version, args)[i]
  {
    var vs := FieldValues(version, args);
    seq(|DescriptionKeys|, i requires 0 <= i < |DescriptionKeys| => (DescriptionKeys[i], vs[i]))
  }

  /** The specification of the popping: the entries whose value is not
      `None`, in their order. */
  function Selected(d: Dictionary): (r: Dictionary)
    ensures |r| <= |d|
  {
    if d == [] then []
    else if d[0].1 == Unset then Selected(d[1..])
    else [d[0]] + Selected(d[1..])
  }

  /** `pop_keys` (line 266): the keys whose value is `None`, in order. */
  function PopKeys(d: Dictionary): (r: seq<string>)
    ensures |r| + |Selected(d)| == |d|
  {
    if d == [] then []
    else (if d[0].1 == Unset then [d[0].0] else []) + PopKeys(d[1..])
  }

  /** `description.pop(key)`: the entries under any other key. */
  function Pop(d: Dictionary, key: string): (r: Dictionary)
    ensures forall p :: p in r <==> p in d && p.0 != key
  {
    if d == [] then []
    else if d[0].0 == key then Pop(d[1..], key)
    else [d[0]] + Pop(d[1..], key)
  }

  /** The entries whose key is not in `ks`, in their order. */
  function Without(d: Dictionary, ks: seq<string>): Dictionary {
    if d == [] then []
    else if d[0].0 in ks then Without(d[1..], ks)
    else [d[0]] + Without(d[1..], ks)
  }

  lemma {:induction false} WithoutNothing(d: Dictionary)
    ensures Without(d, []) == d
  {
    if d != [] {
      WithoutNothing(d[1..]);
      assert d == [d[0]] + d[1..];
    }
  }

  /** Popping one more key from what is left after popping `ks`. */
  lemma {:induction false} PopWithout(d: Dictionary, ks: seq<string>, k: string)
    ensures Pop(Without(d, ks), k) == Without(d, ks + [k])
  {
    if d != [] {
      PopWithout(d[1..], ks, k);
    }
  }

  /** A key that no entry carries changes nothing when popped. */
  lemma {:induction false} WithoutAbsentKey(d: Dictionary, k: string, ks: seq<string>)
    requires k !in Keys(d)
    ensures Without(d, [k] + ks) == Without(d, ks)
  {
    if d != [] {
      assert d[0].0 == Keys(d)[0];
      assert Keys(d[1..]) == Keys(d)[1..];
      WithoutAbsentKey(d[1..], k, ks);
    }
  }

  lemma {:induction false} PopKeysAreKeys(d: Dictionary)
    ensures forall k :: k in PopKeys(d) ==> k in Keys(d)
  {
    if d != [] {
      PopKeysAreKeys(d[1..]);
      assert Keys(d) == [d[0].0] + Keys(d[1..]);
    }
  }

  /** With distinct keys, popping every key of `pop_keys` leaves exactly
      the entries whose value is not `None`. */
  lemma {:induction false} WithoutPopKeys(d: Dictionary)
    requires DistinctKeys(d)
    ensures Without(d, PopKeys(d)) == Selected(d)
  {
    if d != [] {
      var rest := d[1..];
      assert DistinctKeys(rest);
      assert Keys(d) == [d[0].0] + Keys(rest);
      assert d[0].0 !in Keys(rest) by {
        forall j | 0 <= j < |rest| ensures Keys(rest)[j] != d[0].0 {
          assert rest[j] == d[j + 1];
        }
      }
      WithoutPopKeys(rest);
      PopKeysAreKeys(rest);
      if d[0].1 == Unset {
        assert PopKeys(d) == [d[0].0] + PopKeys(rest);
        assert Without(d, PopKeys(d)) == Without(rest, PopKeys(d));
        WithoutAbsentKey(rest, d[0].0, PopKeys(rest));
      } else {
        assert PopKeys(d) == PopKeys(rest);
        assert d[0].0 !in PopKeys(rest);
        assert Without(d, PopKeys(d)) == [d[0]] + Without(rest, PopKeys(rest));
      }
    }
  }

  /** The `i`-th key is still present when its turn to be popped comes. */
  predicate PopFinds(d: Dictionary, keys: seq<string>, i: nat)
    requires i < |keys|
  {
    keys[i] in Keys(Without(d, keys[..i]))
  }

  /** No `pop` of the loop raises `KeyError`. */
  predicate EveryPopFinds(d: Dictionary, keys: seq<string>) {
    forall i :: 0 <= i < |keys| ==> PopFinds(d, keys, i)
  }

  /** The loop of lines 267-268: `description.pop(key)` for every key of
      `keys`, in turn; a key that is no longer there raises `KeyError`. */
  method PopAll(d: Dictionary, keys: seq<string>) returns (r: Result<Dictionary>)
    ensures r.Ok? <==> EveryPopFinds(d, keys)
    ensures r.Ok? ==> r.value == Without(d, keys)
    ensures r.Err? ==> r.error.Class() == KeyError
    ensures r.Err? ==> exists i :: 0 <= i < |keys| && r.error == MissingKey(keys[i]) && !PopFinds(d, keys, i)
                                 && forall k :: 0 <= k < i ==> PopFinds(d, keys, k)
  {
    var description := d;
    WithoutNothing(d);
    for i := 0 to |keys|
      invariant description == Without(d, keys[..i])
      invariant forall k :: 0 <= k < i ==> PopFinds(d, keys, k)
    {
      if keys[i] !in Keys(description) {
        assert !PopFinds(d, keys, i);
        return Err(MissingKey(keys[i]));
      }
      assert PopFinds(d, keys, i);
      PopWithout(d, keys[..i], keys[i]);
      assert keys[..i] + [keys[i]] == keys[..i + 1];
      description := Pop(description, keys[i]);
    }
    assert keys[..|keys|] == keys;
    assert EveryPopFinds(d, keys);
    return Ok(description);
  }

  /** `make_dataset_description` up to the JSON write: the file name and the
      dictionary that would be written, built by popping the keys of
      `pop_keys` one at a time. */
  method MakeDatasetDescription(path: string, version: string, args: DescriptionArgs)
    returns (fname: string, description: Dictionary)
    ensures fname == Paths.Join(path, "dataset_description.json")
    ensures description == Selected(Entries(version, args))
  {
    fname := Paths.Join(path, "dataset_description.json");
    var full := Entries(version, args);
    EntriesDistinct(version, args);
    EveryPopFindsItsKey(full);
    var popped := PopAll(full, PopKeys(full));
    description := popped.value;
    WithoutPopKeys(full);
  }

  /** With distinct keys, `pop_keys` names no key twice. */
  lemma {:induction false} PopKeysDistinct(d: Dictionary)
    requires DistinctKeys(d)
    ensures forall i, j :: 0 <= i < j < |PopKeys(d)| ==> PopKeys(d)[i] != PopKeys(d)[j]
  {
    if d != [] {
      var rest := d[1..];
      FirstKeyNotInRest(d);
      PopKeysDistinct(rest);
      PopKeysAreKeys(rest);
      if d[0].1 == Unset {
        var ks := PopKeys(d);
        assert ks == [d[0].0] + PopKeys(rest);
        forall i, j | 0 <= i < j < |ks| ensures ks[i] != ks[j] {
          assert ks[j] == PopKeys(rest)[j - 1];
          if i > 0 {
            assert ks[i] == PopKeys(rest)[i - 1];
          } else {
            assert ks[j] in PopKeys(rest);
          }
        }
      }
    }
  }

  /** A key of `d` that is not among `ks` survives their removal. */
  lemma {:induction false} WithoutKeepsKey(d: Dictionary, ks: seq<string>, k: string)
    requires k in Keys(d) && k !in ks
    ensures k in Keys(Without(d, ks))
  {
    assert Keys(d) == [d[0].0] + Keys(d[1..]);
    if d[0].0 != k {
      WithoutKeepsKey(d[1..], ks, k);
      if d[0].0 !in ks {
        assert Keys(Without(d, ks)) == [d[0].0] + Keys(Without(d[1..], ks));
      }
    } else {
      assert Without(d, ks)[0] == d[0];
    }
  }

  /** The loop of lines 267-268 never raises: each key of `pop_keys` is
      still in the dictionary when it is popped. */
  lemma EveryPopFindsItsKey(d: Dictionary)
    requires DistinctKeys(d)
    ensures EveryPopFinds(d, PopKeys(d))
  {
    var ks := PopKeys(d);
    PopKeysDistinct(d);
    PopKeysAreKeys(d);
    forall i | 0 <= i < |ks| ensures PopFinds(d, ks, i) {
      assert ks[i] in ks;
      assert ks[i] !in ks[..i] by {
        forall m | 0 <= m < i ensures ks[..i][m] != ks[i] {
          assert ks[..i][m] == ks[m];
        }
      }
      WithoutKeepsKey(d, ks[..i], ks[i]);
    }
  }

  lemma DescriptionKeysDistinct()
    ensures forall i, j :: 0 <= i < j < |DescriptionKeys| ==> DescriptionKeys[i] != DescriptionKeys[j]
  {
  }

  lemma EntriesDistinct(version: string, args: DescriptionArgs)
    ensures DistinctKeys(Entries(version, args))
  {
    DescriptionKeysDistinct();
    var d := Entries(version, args);
    forall i, j | 0 <= i < j < |d| ensures d[i].0 != d[j].0 {
      assert d[i].0 == Keys(d)[i] == DescriptionKeys[i];
      assert d[j].0 == Keys(d)[j] == DescriptionKeys[j];
    }
  }

  /** An entry survives exactly when it was there and its value is not
      `None`. */
  lemma {:induction false} SelectedMembers(d: Dictionary)
    ensures forall p :: p in Selected(d) <==> p in d && p.1 != Unset
  {
    if d != [] {
      SelectedMembers(d[1..]);
      assert d == [d[0]] + d[1..];
    }
  }

  /** The position of the first occurrence of `key` in `ks`, or `|ks|`. */
  function IndexOf(ks: seq<string>, key: string): nat {
    if ks == [] then 0
    else if ks[0] == key then 0
    else 1 + IndexOf(ks[1..], key)
  }

  lemma {:induction false} SelectedKeysAreKeys(d: Dictionary)
    ensures forall k :: 0 <= k < |Selected(d)| ==> Selected(d)[k].0 in Keys(d)
  {
    if d != [] {
      SelectedKeysAreKeys(d[1..]);
      assert Keys(d) == [d[0].0] + Keys(d[1..]);
    }
  }

  /** With distinct keys the first key is not a key of the rest. */
  lemma FirstKeyNotInRest(d: Dictionary)
    requires d != [] && DistinctKeys(d)
    ensures DistinctKeys(d[1..]) && d[0].0 !in Keys(d[1..])
  {
    var rest := d[1..];
    forall j | 0 <= j < |rest| ensures Keys(rest)[j] != d[0].0 {
      assert rest[j] == d[j + 1];
    }
  }

  /** The keys of `r` come in the order they have in `ks`. */
  predicate OrderedIn(r: Dictionary, ks: seq<string>) {
    forall k, l :: 0 <= k < l < |r| ==> IndexOf(ks, r[k].0) < IndexOf(ks, r[l].0)
  }

  /** Keys of the rest keep their order behind a first key that differs
      from all of them, with or without the first entry in front. */
  lemma OrderedBehindFirst(first: (string, Field), rr: Dictionary, ks: seq<string>)
    requires OrderedIn(rr, ks) && first.0 !in ks
    requires forall k :: 0 <= k < |rr| ==> rr[k].0 in ks
    ensures OrderedIn(rr, [first.0] + ks)
    ensures OrderedIn([first] + rr, [first.0] + ks)
  {
    var all := [first.0] + ks;
    assert all[1..] == ks;
    forall k | 0 <= k < |rr| ensures IndexOf(all, rr[k].0) == 1 + IndexOf(ks, rr[k].0) {
      assert rr[k].0 != first.0;
    }
    var r := [first] + rr;
    forall k, l | 0 <= k < l < |r| ensures IndexOf(all, r[k].0) < IndexOf(all, r[l].0) {
      assert r[l] == rr[l - 1];
      if k > 0 {
        assert r[k] == rr[k - 1];
      }
    }
  }

  /** The surviving entries keep the order of their keys in `d`. */
  lemma {:induction false} SelectedKeepsOrder(d: Dictionary)
    requires DistinctKeys(d)
    ensures OrderedIn(Selected(d), Keys(d))
  {
    if d != [] {
      var rest := d[1..];
      FirstKeyNotInRest(d);
      SelectedKeepsOrder(rest);
      SelectedKeysAreKeys(rest);
      assert Keys(d) == [d[0].0] + Keys(rest);
      OrderedBehindFirst(d[0], Selected(rest), Keys(rest));
    }
  }

  /** `BIDSVersion` is always present, with the given version. */
  lemma VersionAlwaysPresent(version: string, args: DescriptionArgs)
    ensures ("BIDSVersion", TextValue(version)) in Selected(Entries(version, args))
  {
    var d := Entries(version, args);
    SelectedMembers(d);
    assert d[1] == (DescriptionKeys[1], TextValue(version));
  }

  /** A key is in the description exactly when its value is not `None`,
      and then with that value. */
  lemma KeyPresentIffSet(version: string, args: DescriptionArgs, i: nat)
    requires i < |DescriptionKeys|
    ensures DescriptionKeys[i] in Keys(Selected(Entries(version, args)))
            <==> FieldValues(version, args)[i] != Unset
    ensures FieldValues(version, args)[i] != Unset
            ==> (DescriptionKeys[i], FieldValues(version, args)[i]) in Selected(Entries(version, args))
  {
    var d := Entries(version, args);
    var r := Selected(d);
    SelectedMembers(d);
    DescriptionKeysDistinct();
    assert d[i] == (DescriptionKeys[i], FieldValues(version, args)[i]);
    if DescriptionKeys[i] in Keys(r) {
      var k :| 0 <= k < |r| && Keys(r)[k] == DescriptionKeys[i];
      assert r[k] in r;
      var j :| 0 <= j < |d| && d[j] == r[k];
      assert j == i;
    }
    if FieldValues(version, args)[i] != Unset {
      var k :| 0 <= k < |r| && r[k] == d[i];
      assert Keys(r)[k] == DescriptionKeys[i];
    }
  }

  /** The keys come out in the fixed order Name, BIDSVersion, License, ... */
  lemma KeysInFixedOrder(version: string, args: DescriptionArgs)
    ensures forall k :: 0 <= k < |Selected(Entries(version, args))| ==>
      Selected(Entries(version, args))[k].0 in DescriptionKeys
    ensures OrderedIn(Selected(Entries(version, args)), DescriptionKeys)
  {
    DescriptionKeysDistinct();
    SelectedKeepsOrder(Entries(version, args));
    SelectedKeysAreKeys(Entries(version, args));
  }

  /** Authors, funding and references given as one string become the list
      of its `", "`-separated pieces; acknowledgements and how to
      acknowledge are never split. */
  lemma OnlyListFieldsSplit(version: string, args: DescriptionArgs)
    ensures args.authors.TextValue? ==> FieldValues(version, args)[3] == Items(SplitOn(args.authors.s, ", "))
    ensures args.funding.TextValue? ==> FieldValues(version, args)[6] == Items(SplitOn(args.funding.s, ", "))
    ensures args.referencesAndLinks.TextValue?
            ==> FieldValues(version, args)[7] == Items(SplitOn(args.referencesAndLinks.s, ", "))
    ensures FieldValues(version, args)[4] == args.acknowledgements
    ensures FieldValues(version, args)[5] == args.howToAcknowledge
  {
  }
}
