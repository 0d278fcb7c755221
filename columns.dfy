/**
 The column schema `TableView::update_config` builds (src/ui/table.rs): which
 top-level keys have been seen, in which order they were first seen, and how
 wide each column has to be.

 `Scan` is the scan itself, one member at a time, exactly as the loop body does
 it; `FirstSeen` and `Widest` describe the result independently (the keys in
 order of first occurrence, the widest member of each key), and the lemmas
 connect the two.
 */
module Columns {
  import opened Json
  import opened Model

  /** What the schema knows of one column: the width it needs and its position. */
  datatype ColumnConfig = ColumnConfig(minWidth: nat, index: nat)

  /** The schema: the configuration of every column, by key. */
  type Config = map<string, ColumnConfig>

  function Max(a: nat, b: nat): nat {
    if a < b then b else a
  }

  /** The width one member asks of its column: its rendered value's length and its key's, in bytes. */
  function Demand(p: Member): nat {
    Max(ByteLen(Render(p.value)), ByteLen(p.key))
  }

  /** The members of every object record, record after record, each in its object's order. */
  function AllPairs(records: seq<Record>): seq<Member> {
    if records == [] then []
    else AllPairs(records[..|records| - 1]) + Members(records[|records| - 1])
  }

  /** The keys of the members, repetitions included (the table's header row). */
  function KeysOf(ps: seq<Member>): (keys: seq<string>)
    ensures |keys| == |ps|
  {
    seq(|ps|, i requires 0 <= i < |ps| => ps[i].key)
  }

  /**
   One pass of the inner loop of update_config: a key seen for the first time
   gets the current number of columns as its index and width 0, then its width
   is raised to the value's rendered length and to the key's length. An existing
   column keeps its index.
   */
  function Step(cols: Config, p: Member): Config
  {
    var entry := if p.key in cols then cols[p.key] else ColumnConfig(0, |cols|);
    cols[p.key := ColumnConfig(Max(Max(entry.minWidth, ByteLen(Render(p.value))), ByteLen(p.key)), entry.index)]
  }

  /** The schema after scanning the members `ps` in order, starting from no columns. */
  function Scan(ps: seq<Member>): Config {
    if ps == [] then map[] else Step(Scan(ps[..|ps| - 1]), ps[|ps| - 1])
  }

  /** The schema update_config computes for a sequence of records. */
  function Build(records: seq<Record>): Config {
    Scan(AllPairs(records))
  }

  ghost predicate Distinct(s: seq<string>) {
    forall i, j :: 0 <= i < j < |s| ==> s[i] != s[j]
  }

  /** Some column has index `i`. */
  ghost predicate HasIndex(cols: Config, i: nat) {
    exists k :: k in cols && cols[k].index == i
  }

  /** The indices of the columns are exactly 0 .. |cols| - 1, each used once. */
  ghost predicate WellIndexed(cols: Config) {
    && (forall k :: k in cols ==> cols[k].index < |cols|)
    && (forall k, k' :: k in cols && k' in cols && cols[k].index == cols[k'].index ==> k == k')
    && (forall i :: 0 <= i < |cols| ==> HasIndex(cols, i))
  }

  /** The keys of `ps` without repetitions, in the order of their first occurrence. */
  function FirstSeen(ps: seq<Member>): (keys: seq<string>)
    ensures Distinct(keys)
    ensures forall k :: k in keys <==> k in KeysOf(ps)
    ensures |keys| <= |ps|
  {
    if ps == [] then []
    else
      var pre := FirstSeen(ps[..|ps| - 1]);
      var k := ps[|ps| - 1].key;
      assert forall key :: key in KeysOf(ps) <==> key in KeysOf(ps[..|ps| - 1]) || key == k by {
        assert KeysOf(ps) == KeysOf(ps[..|ps| - 1]) + [k];
      }
      if k in pre then pre else pre + [k]
  }

  /** The greatest demand of a member with key `k` in `ps`; 0 when no member has that key. */
  function Widest(ps: seq<Member>, k: string): nat {
    if ps == [] then 0
    else
      var w := Widest(ps[..|ps| - 1], k);
      var p := ps[|ps| - 1];
      if p.key == k then Max(w, Demand(p)) else w
  }

  /** No member with key `k` demands more than Widest(ps, k). */
  lemma {:induction false} WidestBound(ps: seq<Member>, k: string, i: nat)
    requires i < |ps| && ps[i].key == k
    ensures Demand(ps[i]) <= Widest(ps, k)
  {
    var pre := ps[..|ps| - 1];
    if i < |pre| {
      assert pre[i] == ps[i];
      WidestBound(pre, k, i);
    }
  }

  /** Some member with key `k` demands exactly Widest(ps, k), when there is a member with that key. */
  lemma {:induction false} WidestAttained(ps: seq<Member>, k: string) returns (i: nat)
    requires k in KeysOf(ps)
    ensures i < |ps| && ps[i].key == k && Demand(ps[i]) == Widest(ps, k)
  {
    var pre, p := ps[..|ps| - 1], ps[|ps| - 1];
    KeysOfSnoc(pre, p);
    assert pre + [p] == ps;
    if k in KeysOf(pre) {
      i := WidestAttained(pre, k);
      assert pre[i] == ps[i];
      if p.key == k && Demand(p) > Widest(pre, k) {
        i := |ps| - 1;
      }
    } else {
      i := |ps| - 1;
      WidestAbsent(pre, k);
    }
  }

  /** Widest(ps, k) is 0 when no member has key `k`. */
  lemma {:induction false} WidestAbsent(ps: seq<Member>, k: string)
    requires k !in KeysOf(ps)
    ensures Widest(ps, k) == 0
  {
    if ps != [] {
      var pre, p := ps[..|ps| - 1], ps[|ps| - 1];
      KeysOfSnoc(pre, p);
      assert pre + [p] == ps;
      WidestAbsent(pre, k);
    }
  }

  /** One member more adds its key at the end of the header. */
  lemma {:induction false} KeysOfSnoc(ps: seq<Member>, p: Member)
    ensures KeysOf(ps + [p]) == KeysOf(ps) + [p.key]
  {
  }

  /** Scanning one more member is one more Step. */
  lemma {:induction false} ScanSnoc(ps: seq<Member>, p: Member)
    ensures Scan(ps + [p]) == Step(Scan(ps), p)
  {
    assert (ps + [p])[..|ps|] == ps;
  }

  /** The facts ScanKeys states, for one sequence of members. */
  ghost predicate KeysMatch(ps: seq<Member>) {
    && (forall k :: k in Scan(ps) <==> k in FirstSeen(ps))
    && |Scan(ps)| == |FirstSeen(ps)|
    && (forall i :: 0 <= i < |FirstSeen(ps)| ==> Scan(ps)[FirstSeen(ps)[i]].index == i)
  }

  /** One member more whose key is already a column: neither the keys nor their indices change. */
  lemma {:induction false} ScanKeysOldKey(pre: seq<Member>, p: Member)
    requires KeysMatch(pre) && p.key in Scan(pre)
    ensures KeysMatch(pre + [p])
  {
    var ps := pre + [p];
    assert ps[..|ps| - 1] == pre;
    var cols, keys := Scan(pre), FirstSeen(pre);
    assert Scan(ps) == Step(cols, p);
    assert FirstSeen(ps) == keys;
    assert Scan(ps).Keys == cols.Keys;
    forall i | 0 <= i < |keys|
      ensures Scan(ps)[keys[i]].index == i
    {
      assert keys[i] in cols;
    }
  }

  /** One member more whose key is new: the key is appended to the first-seen keys with the next index. */
  lemma {:induction false} ScanKeysNewKey(pre: seq<Member>, p: Member)
    requires KeysMatch(pre) && p.key !in Scan(pre)
    ensures KeysMatch(pre + [p])
  {
    var ps := pre + [p];
    assert ps[..|ps| - 1] == pre;
    var cols, keys := Scan(pre), FirstSeen(pre);
    assert Scan(ps) == Step(cols, p);
    assert p.key !in keys;
    assert FirstSeen(ps) == keys + [p.key];
    assert Scan(ps).Keys == cols.Keys + {p.key};
    assert |Scan(ps)| == |Scan(ps).Keys| == |cols.Keys| + 1 == |cols| + 1;
    forall i | 0 <= i < |keys| + 1
      ensures Scan(ps)[(keys + [p.key])[i]].index == i
    {
      if i < |keys| {
        assert (keys + [p.key])[i] == keys[i] && keys[i] != p.key && keys[i] in cols;
      }
    }
  }

  /** Scanning one more member of an object is one more Step. */
  lemma {:induction false} ScanOneMore(seen: seq<Member>, members: seq<Member>, j: nat)
    requires j < |members|
    ensures Scan(seen + members[..j + 1]) == Step(Scan(seen + members[..j]), members[j])
  {
    var shorter := seen + members[..j];
    assert seen + members[..j + 1] == shorter + [members[j]];
    ScanSnoc(shorter, members[j]);
  }

  /**
   The schema's keys are the distinct keys of the members, and the column of the
   i-th key to be first seen has index i.
   */
  lemma {:induction false} ScanKeys(ps: seq<Member>)
    ensures forall k :: k in Scan(ps) <==> k in FirstSeen(ps)
    ensures |Scan(ps)| == |FirstSeen(ps)|
    ensures forall i :: 0 <= i < |FirstSeen(ps)| ==> Scan(ps)[FirstSeen(ps)[i]].index == i
  {
    if ps != [] {
      var pre, p := ps[..|ps| - 1], ps[|ps| - 1];
      ScanKeys(pre);
      if p.key in Scan(pre) {
        ScanKeysOldKey(pre, p);
      } else {
        ScanKeysNewKey(pre, p);
      }
      assert pre + [p] == ps;
    }
  }

  /** Each column's width is the greatest demand among the members with its key. */
  lemma {:induction false} ScanWidths(ps: seq<Member>)
    ensures forall k :: k in Scan(ps) ==> Scan(ps)[k].minWidth == Widest(ps, k)
  {
    if ps != [] {
      var pre, p := ps[..|ps| - 1], ps[|ps| - 1];
      ScanWidths(pre);
      ScanKeys(pre);
      var cols := Scan(pre);
      assert Scan(ps) == Step(cols, p);
      forall k | k in Scan(ps)
        ensures Scan(ps)[k].minWidth == Widest(ps, k)
      {
        if k != p.key {
          assert Widest(ps, k) == Widest(pre, k);
        } else if k in cols {
          assert Widest(ps, k) == Max(Widest(pre, k), Demand(p));
        } else {
          assert k !in KeysOf(pre);
          WidestAbsent(pre, k);
          assert Widest(ps, k) == Max(0, Demand(p));
        }
      }
    }
  }

  /**
   The schema is the reference one: its keys are the distinct keys of the
   members, the column of the i-th key to be first seen has index i, and each
   column's width is the greatest demand among the members with its key.
   */
  lemma {:induction false} ScanMatchesReference(ps: seq<Member>)
    ensures forall k :: k in Scan(ps) <==> k in FirstSeen(ps)
    ensures |Scan(ps)| == |FirstSeen(ps)|
    ensures forall i :: 0 <= i < |FirstSeen(ps)| ==> Scan(ps)[FirstSeen(ps)[i]].index == i
    ensures forall k :: k in Scan(ps) ==> Scan(ps)[k].minWidth == Widest(ps, k)
  {
    ScanKeys(ps);
    ScanWidths(ps);
  }

  /** Every schema a scan produces has its indices exactly 0 .. n - 1. */
  lemma {:induction false} ScanIsWellIndexed(ps: seq<Member>)
    ensures WellIndexed(Scan(ps))
  {
    ScanMatchesReference(ps);
    var cols, keys := Scan(ps), FirstSeen(ps);
    forall k | k in cols
      ensures cols[k].index < |cols| && keys[cols[k].index] == k
    {
      var j :| 0 <= j < |keys| && keys[j] == k;
    }
    forall i | 0 <= i < |cols|
      ensures HasIndex(cols, i)
    {
      assert keys[i] in cols && cols[keys[i]].index == i;
    }
  }

  /**
   Scanning more members never removes a column, never moves one and never
   narrows one: an existing key keeps its index, later occurrences only widen it.
   */
  lemma {:induction false} ScanExtendsAt(ps: seq<Member>, qs: seq<Member>, k: string)
    requires k in Scan(ps)
    ensures k in Scan(ps + qs)
    ensures Scan(ps + qs)[k].index == Scan(ps)[k].index
    ensures Scan(ps)[k].minWidth <= Scan(ps + qs)[k].minWidth
  {
    if qs == [] {
      assert ps + qs == ps;
    } else {
      var front, q := qs[..|qs| - 1], qs[|qs| - 1];
      ScanExtendsAt(ps, front, k);
      var longer := ps + front;
      assert ps + qs == longer + [q];
      ScanSnoc(longer, q);
    }
  }

  /** The same for every column at once. */
  lemma {:induction false} ScanExtends(ps: seq<Member>, qs: seq<Member>)
    ensures forall k :: k in Scan(ps) ==>
      && k in Scan(ps + qs)
      && Scan(ps + qs)[k].index == Scan(ps)[k].index
      && Scan(ps)[k].minWidth <= Scan(ps + qs)[k].minWidth
  {
    forall k | k in Scan(ps)
      ensures k in Scan(ps + qs) && Scan(ps + qs)[k].index == Scan(ps)[k].index
      ensures Scan(ps)[k].minWidth <= Scan(ps + qs)[k].minWidth
    {
      ScanExtendsAt(ps, qs, k);
    }
  }

  /** A key seen for the first time at position j gets, for good, the number of columns before j as its index. */
  lemma {:induction false} NewKeyGetsCurrentCount(ps: seq<Member>, j: nat)
    requires j < |ps| && ps[j].key !in Scan(ps[..j])
    ensures ps[j].key in Scan(ps) && Scan(ps)[ps[j].key].index == |Scan(ps[..j])|
  {
    var before, upTo, after := ps[..j], ps[..j + 1], ps[j + 1..];
    assert before + [ps[j]] == upTo;
    ScanSnoc(before, ps[j]);
    assert upTo + after == ps;
    ScanExtendsAt(upTo, after, ps[j].key);
  }

  /** The header lists each column once exactly when no key occurs twice among the members. */
  lemma {:induction false} FirstSeenIsAllKeysIffDistinct(ps: seq<Member>)
    ensures |FirstSeen(ps)| == |ps| <==> Distinct(KeysOf(ps))
  {
    if ps != [] {
      var pre, p := ps[..|ps| - 1], ps[|ps| - 1];
      FirstSeenIsAllKeysIffDistinct(pre);
      var keys := KeysOf(ps);
      assert keys == KeysOf(pre) + [p.key];
      if Distinct(keys) {
        assert Distinct(KeysOf(pre)) by {
          forall i, j | 0 <= i < j < |pre| ensures KeysOf(pre)[i] != KeysOf(pre)[j] {
            assert keys[i] != keys[j];
          }
        }
        assert p.key !in KeysOf(pre) by {
          forall i | 0 <= i < |pre| ensures KeysOf(pre)[i] != p.key {
            assert keys[i] != keys[|pre|];
          }
        }
      }
      if |FirstSeen(ps)| == |ps| {
        assert p.key !in FirstSeen(pre);
        assert Distinct(keys) by {
          forall i, j | 0 <= i < j < |keys| ensures keys[i] != keys[j] {
            if j == |pre| {
              assert KeysOf(pre)[i] in KeysOf(pre);
            }
          }
        }
      }
    }
  }

  /** Gathering the members of two runs of records one after the other. */
  lemma {:induction false} AllPairsAppend(rs: seq<Record>, ts: seq<Record>)
    ensures AllPairs(rs + ts) == AllPairs(rs) + AllPairs(ts)
  {
    if ts == [] {
      assert rs + ts == rs;
    } else {
      var front, last, whole := ts[..|ts| - 1], ts[|ts| - 1], rs + ts;
      assert whole[..|whole| - 1] == rs + front;
      assert whole[|whole| - 1] == last;
      AllPairsAppend(rs, front);
      calc {
        AllPairs(whole);
        AllPairs(rs + front) + Members(last);
        (AllPairs(rs) + AllPairs(front)) + Members(last);
        AllPairs(rs) + (AllPairs(front) + Members(last));
        AllPairs(rs) + AllPairs(ts);
      }
    }
  }

  /** Member j of record i is among the gathered members. */
  lemma {:induction false} MemberIsGathered(rs: seq<Record>, i: nat, j: nat)
    requires i < |rs| && j < |Members(rs[i])|
    ensures Members(rs[i])[j] in AllPairs(rs)
  {
    var front, last := rs[..|rs| - 1], rs[|rs| - 1];
    assert AllPairs(rs) == AllPairs(front) + Members(last);
    if i < |front| {
      assert front[i] == rs[i];
      MemberIsGathered(front, i, j);
    } else {
      assert AllPairs(rs)[|AllPairs(front)| + j] == Members(last)[j];
    }
  }

  /** Every gathered member is member j of some record i. */
  lemma {:induction false} GatheredIsMember(rs: seq<Record>, n: nat)
    requires n < |AllPairs(rs)|
    ensures exists i, j :: 0 <= i < |rs| && 0 <= j < |Members(rs[i])| && Members(rs[i])[j] == AllPairs(rs)[n]
  {
    var front, last := rs[..|rs| - 1], rs[|rs| - 1];
    var ps := AllPairs(rs);
    assert ps == AllPairs(front) + Members(last);
    if n < |AllPairs(front)| {
      GatheredIsMember(front, n);
      var i, j :| 0 <= i < |front| && 0 <= j < |Members(front[i])| && Members(front[i])[j] == AllPairs(front)[n];
      assert front[i] == rs[i] && ps[n] == AllPairs(front)[n];
    } else {
      var j := n - |AllPairs(front)|;
      assert ps[n] == Members(rs[|rs| - 1])[j];
    }
  }

  /** The schema's keys are exactly the top-level keys of the object records. */
  lemma {:induction false} BuildKeys(records: seq<Record>)
    ensures forall k :: k in Build(records) <==>
      exists i, j :: 0 <= i < |records| && 0 <= j < |Members(records[i])| && Members(records[i])[j].key == k
  {
    var ps := AllPairs(records);
    ScanKeys(ps);
    forall k | k in Build(records)
      ensures exists i, j :: 0 <= i < |records| && 0 <= j < |Members(records[i])| && Members(records[i])[j].key == k
    {
      assert k in KeysOf(ps);
      var n :| 0 <= n < |ps| && KeysOf(ps)[n] == k;
      GatheredIsMember(records, n);
    }
    forall i, j | 0 <= i < |records| && 0 <= j < |Members(records[i])|
      ensures Members(records[i])[j].key in Build(records)
    {
      MemberIsGathered(records, i, j);
      var n :| 0 <= n < |ps| && ps[n] == Members(records[i])[j];
      assert KeysOf(ps)[n] == ps[n].key;
    }
  }

  /** Member j of record i has a column, and that column is at least as wide as the member demands. */
  lemma {:induction false} BuildWidthCovers(records: seq<Record>, i: nat, j: nat)
    requires i < |records| && j < |Members(records[i])|
    ensures Members(records[i])[j].key in Build(records)
    ensures Demand(Members(records[i])[j]) <= Build(records)[Members(records[i])[j].key].minWidth
  {
    var ps, p := AllPairs(records), Members(records[i])[j];
    MemberIsGathered(records, i, j);
    var m :| 0 <= m < |ps| && ps[m] == p;
    assert KeysOf(ps)[m] == p.key;
    ScanKeys(ps);
    ScanWidths(ps);
    WidestBound(ps, p.key, m);
  }

  /** A column's width is at least its key's length and every length of a value under that key. */
  lemma {:induction false} BuildWidthBounds(records: seq<Record>, k: string)
    requires k in Build(records)
    ensures Build(records)[k].minWidth >= ByteLen(k)
    ensures forall i, j :: 0 <= i < |records| && 0 <= j < |Members(records[i])| && Members(records[i])[j].key == k ==>
      ByteLen(Render(Members(records[i])[j].value)) <= Build(records)[k].minWidth
  {
    BuildKeys(records);
    var i, j :| 0 <= i < |records| && 0 <= j < |Members(records[i])| && Members(records[i])[j].key == k;
    BuildWidthCovers(records, i, j);
    forall i', j' | 0 <= i' < |records| && 0 <= j' < |Members(records[i'])| && Members(records[i'])[j'].key == k
      ensures ByteLen(Render(Members(records[i'])[j'].value)) <= Build(records)[k].minWidth
    {
      BuildWidthCovers(records, i', j');
    }
  }

  /** A column's width is the demand of one particular member with its key: the widest one. */
  lemma {:induction false} BuildWidthAttained(records: seq<Record>, k: string)
    requires k in Build(records)
    ensures exists i, j ::
      && 0 <= i < |records| && 0 <= j < |Members(records[i])| && Members(records[i])[j].key == k
      && Build(records)[k].minWidth == Demand(Members(records[i])[j])
  {
    var ps := AllPairs(records);
    ScanKeys(ps);
    ScanWidths(ps);
    assert k in KeysOf(ps);
    var n := WidestAttained(ps, k);
    GatheredIsMember(records, n);
  }

  /** The schema of any records has its indices exactly 0 .. n - 1. */
  lemma {:induction false} BuildIsWellIndexed(records: seq<Record>)
    ensures WellIndexed(Build(records))
  {
    ScanIsWellIndexed(AllPairs(records));
  }

  /** Scanning more records keeps every column's index and never narrows a column. */
  lemma {:induction false} BuildExtends(rs: seq<Record>, ts: seq<Record>)
    ensures forall k :: k in Build(rs) ==>
      && k in Build(rs + ts)
      && Build(rs + ts)[k].index == Build(rs)[k].index
      && Build(rs)[k].minWidth <= Build(rs + ts)[k].minWidth
  {
    AllPairsAppend(rs, ts);
    ScanExtends(AllPairs(rs), AllPairs(ts));
  }

  /** A record whose value is absent or is not an object adds no column and widens none. */
  lemma {:induction false} NonObjectRecordIgnored(rs: seq<Record>, r: Record, ts: seq<Record>)
    requires AsObject(r).None?
    ensures Build(rs + [r] + ts) == Build(rs + ts)
  {
    var left := rs + [r];
    AllPairsAppend(left, ts);
    AllPairsAppend(rs, [r]);
    AllPairsAppend(rs, ts);
    NonObjectRecordHasNoPairs(r);
    assert AllPairs(left) == AllPairs(rs);
    assert AllPairs(left + ts) == AllPairs(rs + ts);
  }

  lemma {:induction false} NonObjectRecordHasNoPairs(r: Record)
    requires AsObject(r).None?
    ensures AllPairs([r]) == []
  {
    assert AllPairs([r]) == AllPairs([]) + Members(r);
  }
}
