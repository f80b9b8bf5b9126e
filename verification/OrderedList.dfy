/** The contract of the Pintos call list_insert_ordered on a list of threads, with the
    comparison "smaller key first". */
module OrderedList {
  import opened Threads

  ghost predicate Keyed(s: seq<Tid>, key: map<Tid, int>) {
    forall i :: 0 <= i < |s| ==> s[i] in key
  }

  /** Inserts x in front of the first element whose key is greater than x's. */
  function InsertOrdered(s: seq<Tid>, x: Tid, key: map<Tid, int>): (r: seq<Tid>)
    requires x in key && Keyed(s, key)
    ensures |r| == |s| + 1
  {
    if s == [] || key[x] < key[s[0]] then [x] + s
    else [s[0]] + InsertOrdered(s[1..], x, key)
  }

  ghost predicate SortedBy(s: seq<Tid>, key: map<Tid, int>)
    requires Keyed(s, key)
  {
    forall i, j :: 0 <= i < j < |s| ==> key[s[i]] <= key[s[j]]
  }

  /** In a sorted list x lands behind everything with a key no greater and ahead of the
      rest: equal keys keep their order of arrival. */
  lemma {:induction false} InsertSplit(s: seq<Tid>, x: Tid, key: map<Tid, int>) returns (i: nat)
    requires x in key && Keyed(s, key) && SortedBy(s, key)
    ensures i <= |s| && InsertOrdered(s, x, key) == s[..i] + [x] + s[i..]
    ensures forall j :: 0 <= j < i ==> key[s[j]] <= key[x]
    ensures forall j :: i <= j < |s| ==> key[x] < key[s[j]]
  {
    if s == [] || key[x] < key[s[0]] {
      i := 0;
    } else {
      var rest := s[1..];
      var k := InsertSplit(rest, x, key);
      i := k + 1;
      assert s[..i] == [s[0]] + rest[..k] && s[i..] == rest[k..];
    }
  }

  lemma {:induction false} InsertMembers(s: seq<Tid>, x: Tid, key: map<Tid, int>)
    requires x in key && Keyed(s, key)
    ensures forall t :: t in InsertOrdered(s, x, key) <==> t == x || t in s
  {
    if s != [] && key[x] >= key[s[0]] {
      InsertMembers(s[1..], x, key);
      assert s == [s[0]] + s[1..];
    }
  }
}
