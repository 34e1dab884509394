/** Object literals used as lookup tables (`Record<string, string>`), and the
    `table[key] || fallback` reading the display code applies to them. */
module Records {
  import opened Options

  /** The entries of an object literal, in the order they are written. */
  type Table = seq<(string, string)>

  /** The keys a table defines. */
  function Keys(t: Table): set<string> {
    set i | 0 <= i < |t| :: t[i].0
  }

  /** Entry `i` is the last one written for `key`; it is the one an object literal keeps
      when a key is written more than once. */
  predicate LastEntryAt(t: Table, key: string, i: int) {
    0 <= i < |t| && t[i].0 == key && forall j :: i < j < |t| ==> t[j].0 != key
  }

  /** `t[key]`: the value of the last entry for `key`, if the table defines it. */
  function Lookup(t: Table, key: string): (r: Option<string>)
    ensures r.None? <==> key !in Keys(t)
    ensures r.Some? ==> exists i :: LastEntryAt(t, key, i) && t[i].1 == r.value
    decreases |t|
  {
    if |t| == 0 then None
    else if t[|t| - 1].0 == key then
      assert LastEntryAt(t, key, |t| - 1);
      Some(t[|t| - 1].1)
    else
      var front := t[..|t| - 1];
      var r := Lookup(front, key);
      assert Keys(t) == Keys(front) + {t[|t| - 1].0} by {
        forall k ensures k in Keys(t) <==> k in Keys(front) + {t[|t| - 1].0} {
          if k in Keys(t) && k != t[|t| - 1].0 {
            var i :| 0 <= i < |t| && t[i].0 == k;
            assert front[i].0 == k;
          }
        }
      }
      assert r.Some? ==> exists i :: LastEntryAt(t, key, i) && t[i].1 == r.value by {
        if r.Some? {
          var i :| LastEntryAt(front, key, i) && front[i].1 == r.value;
          assert LastEntryAt(t, key, i);
        }
      }
      r
  }

  /** `t[key] || fallback`: the stored value unless it is missing or empty. */
  function ValueOr(t: Table, key: string, fallback: string): (r: string)
    ensures key !in Keys(t) ==> r == fallback
    ensures forall i :: LastEntryAt(t, key, i) ==> r == (if t[i].1 == "" then fallback else t[i].1)
  {
    var v := Lookup(t, key);
    if v.Some? && v.value != "" then v.value else fallback
  }

  /** The table whose entries are the given keys, in order, each storing `f` of itself. */
  function ImageTable(keys: seq<string>, f: string -> string): (t: Table)
    ensures |t| == |keys|
    ensures forall i :: 0 <= i < |keys| ==> t[i] == (keys[i], f(keys[i]))
  {
    seq(|keys|, i requires 0 <= i < |keys| => (keys[i], f(keys[i])))
  }

  /** Such a table defines exactly the listed keys. */
  lemma ImageTableKeys(keys: seq<string>, f: string -> string)
    ensures forall k :: k in Keys(ImageTable(keys, f)) <==> k in keys
  {
  }

  /** Reading such a table with a fallback gives `f(key)` for a listed key (unless that is
      empty) and the fallback for any other text. */
  lemma ValueOrImage(keys: seq<string>, f: string -> string, key: string, fallback: string)
    ensures key in keys ==>
      ValueOr(ImageTable(keys, f), key, fallback) == (if f(key) != "" then f(key) else fallback)
    ensures key !in keys ==> ValueOr(ImageTable(keys, f), key, fallback) == fallback
  {
    ImageTableKeys(keys, f);
  }
}
