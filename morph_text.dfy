/**
 * The pure logic of the 404-page text morpher (404.js): the lookup table built
 * from the replacement list, the cyclic search for the next replaceable
 * character, and the text rendered with one character substituted.
 */
module MorphText {

  /** One entry `{ from, to }` of the replacement list. */
  datatype Replacement = Replacement(from: char, to: string)

  /** The lookup table `new Map(list.map(r => [r.from, r.to]))`: entries are
      inserted in list order, so a later entry overwrites an earlier one. */
  function BuildMap(reps: seq<Replacement>): map<char, string>
  {
    if reps == [] then map[]
    else BuildMap(reps[..|reps| - 1])[reps[|reps| - 1].from := reps[|reps| - 1].to]
  }

  /** A key of the table is exactly a `from` of some entry, and its value is
      the `to` of the LAST entry with that `from` (last write wins). */
  lemma {:induction false} BuildMapLastWins(reps: seq<Replacement>, c: char)
    ensures c in BuildMap(reps) <==> exists i :: 0 <= i < |reps| && reps[i].from == c
    ensures c in BuildMap(reps) ==>
      exists i :: 0 <= i < |reps| && reps[i].from == c && BuildMap(reps)[c] == reps[i].to &&
        forall j :: i < j < |reps| ==> reps[j].from != c
  {
    if reps != [] {
      var init, last := reps[..|reps| - 1], reps[|reps| - 1];
      BuildMapLastWins(init, c);
      if last.from == c {
        assert reps[|reps| - 1].from == c;
      } else {
        forall i | 0 <= i < |init| ensures init[i] == reps[i] { }
        if c in BuildMap(init) {
          var i :| 0 <= i < |init| && init[i].from == c && BuildMap(init)[c] == init[i].to &&
            forall j :: i < j < |init| ==> init[j].from != c;
          assert reps[i].from == c && BuildMap(reps)[c] == reps[i].to;
          assert forall j :: i < j < |reps| ==> reps[j].from != c;
        }
      }
    }
  }

  /** `replacements.filter(r => r.from !== from)`: the entries whose `from`
      differs, in their original order. */
  function WithoutFrom(reps: seq<Replacement>, from: char): (r: seq<Replacement>)
    ensures |r| <= |reps|
    ensures forall x :: x in r <==> x in reps && x.from != from
    ensures (forall k :: 0 <= k < |reps| ==> reps[k].from != from) ==> r == reps
  {
    if reps == [] then []
    else
      var init, last := reps[..|reps| - 1], reps[|reps| - 1];
      assert reps == init + [last];
      WithoutFrom(init, from) + (if last.from != from then [last] else [])
  }

  /** Filtering a list with one more entry at the end. */
  lemma WithoutFromSnoc(s: seq<Replacement>, x: Replacement, from: char)
    ensures WithoutFrom(s + [x], from) == WithoutFrom(s, from) + (if x.from != from then [x] else [])
  {
    assert (s + [x])[..|s + [x]| - 1] == s;
  }

  /** The filter keeps the surviving entries in their order, duplicates
      included: filtering a concatenation filters each part. */
  lemma {:induction false} WithoutFromAppend(a: seq<Replacement>, b: seq<Replacement>, from: char)
    ensures WithoutFrom(a + b, from) == WithoutFrom(a, from) + WithoutFrom(b, from)
  {
    if b == [] {
      assert a + b == a;
    } else {
      var init, last := b[..|b| - 1], b[|b| - 1];
      SplitLast(a, b);
      SplitLast([], b);
      WithoutFromAppend(a, init, from);
      WithoutFromSnoc(a + init, last, from);
      WithoutFromSnoc(init, last, from);
      AppendAssoc(WithoutFrom(a, from), WithoutFrom(init, from), if last.from != from then [last] else []);
    }
  }

  lemma SplitLast<T>(a: seq<T>, b: seq<T>)
    requires b != []
    ensures a + b == (a + b[..|b| - 1]) + [b[|b| - 1]]
  {
    assert b == b[..|b| - 1] + [b[|b| - 1]];
  }

  lemma AppendAssoc<T>(a: seq<T>, b: seq<T>, c: seq<T>)
    ensures a + b + c == a + (b + c)
  {
  }

  /** Deleting a key from the table and filtering the list by that key keep
      the table equal to the one the list builds. */
  lemma {:induction false} BuildMapWithoutFrom(reps: seq<Replacement>, from: char)
    ensures BuildMap(WithoutFrom(reps, from)) == BuildMap(reps) - {from}
  {
    if reps != [] {
      var init, last := reps[..|reps| - 1], reps[|reps| - 1];
      BuildMapWithoutFrom(init, from);
      var wi := WithoutFrom(init, from);
      if last.from != from {
        var w := wi + [last];
        assert WithoutFrom(reps, from) == w;
        assert w[..|w| - 1] == wi;
        MapUpdateThenRemove(BuildMap(init), last.from, last.to, from);
      } else {
        assert WithoutFrom(reps, from) == wi by {
          assert wi + [] == wi;
        }
        MapUpdateThenRemoveSame(BuildMap(init), last.to, from);
      }
    }
  }

  lemma MapUpdateThenRemove(m: map<char, string>, k: char, v: string, f: char)
    requires k != f
    ensures m[k := v] - {f} == (m - {f})[k := v]
  {
  }

  lemma MapUpdateThenRemoveSame(m: map<char, string>, v: string, f: char)
    ensures m[f := v] - {f} == m - {f}
  {
  }

  /** Appending an entry sets its key in the table, as `addReplacement` does. */
  lemma BuildMapAppend(reps: seq<Replacement>, r: Replacement)
    ensures BuildMap(reps + [r]) == BuildMap(reps)[r.from := r.to]
  {
  }

  // ---------------------------------------------------------------------
  // The cyclic search of findNextReplaceableChar

  /** The cursor invariant: an index into the text, or 0 for the empty text. */
  predicate CursorOk(cursor: nat, n: nat)
  {
    if n == 0 then cursor == 0 else cursor < n
  }

  /** The character `k` steps after `start`, wrapping around the text. */
  function CyclicAt(chars: seq<char>, start: nat, k: nat): char
    requires |chars| > 0
  {
    chars[(start + k) % |chars|]
  }

  /** How many steps from `start` the scan needs to reach `idx`. */
  function CyclicDistance(start: nat, idx: nat, n: nat): (d: nat)
    requires start < n && idx < n
    ensures d < n && (start + d) % n == idx
  {
    if idx >= start then
      ModSmall(idx, n);
      idx - start
    else
      ModSmall(idx, n);
      assert (start + (idx + n - start)) % n == (idx + n) % n;
      ModWrap(idx, n);
      idx + n - start
  }

  lemma ModSmall(x: nat, n: nat)
    requires x < n
    ensures x % n == x
  {
  }

  lemma ModWrap(x: nat, n: nat)
    requires x < n
    ensures (x + n) % n == x
  {
  }

  /** The first step count `k >= i` at which the scan meets a key, or `|chars|`
      when no remaining step does. */
  function FirstOffset(chars: seq<char>, keys: set<char>, start: nat, i: nat): (k: nat)
    requires i <= |chars|
    ensures i <= k <= |chars|
    ensures k < |chars| ==> CyclicAt(chars, start, k) in keys
    ensures forall j :: i <= j < k ==> CyclicAt(chars, start, j) !in keys
    decreases |chars| - i
  {
    if i == |chars| then i
    else if CyclicAt(chars, start, i) in keys then i
    else FirstOffset(chars, keys, start, i + 1)
  }

  /** The index findNextReplaceableChar returns: the first index, in cyclic
      order from `start`, whose character is a key; -1 if there is none. */
  function NextReplaceable(chars: seq<char>, keys: set<char>, start: nat): (r: int)
    ensures -1 <= r < |chars|
    ensures r != -1 ==> chars[r] in keys
  {
    var k := FirstOffset(chars, keys, start, 0);
    if k == |chars| then -1 else (start + k) % |chars|
  }

  /** The search fails exactly when no character of the text is a key; this
      includes the empty text. */
  lemma NextReplaceableNone(chars: seq<char>, keys: set<char>, start: nat)
    requires CursorOk(start, |chars|)
    ensures NextReplaceable(chars, keys, start) == -1 <==>
      forall j :: 0 <= j < |chars| ==> chars[j] !in keys
  {
    var k := FirstOffset(chars, keys, start, 0);
    if k == |chars| {
      forall j | 0 <= j < |chars| ensures chars[j] !in keys {
        var d := CyclicDistance(start, j, |chars|);
        assert CyclicAt(chars, start, d) == chars[j];
      }
    }
  }

  /** A found index is the cyclically closest key: every index the scan
      passes before it holds a character that is not a key. */
  lemma NextReplaceableIsFirst(chars: seq<char>, keys: set<char>, start: nat, idx: nat)
    requires CursorOk(start, |chars|)
    requires NextReplaceable(chars, keys, start) != -1
    requires idx < |chars|
    requires CyclicDistance(start, idx, |chars|) <
             CyclicDistance(start, NextReplaceable(chars, keys, start), |chars|)
    ensures chars[idx] !in keys
  {
    var n := |chars|;
    var k := FirstOffset(chars, keys, start, 0);
    var r := NextReplaceable(chars, keys, start);
    CyclicDistanceUnique(start, r, k, n);
    var d := CyclicDistance(start, idx, n);
    assert CyclicAt(chars, start, d) == chars[idx];
  }

  lemma CyclicDistanceUnique(start: nat, idx: nat, k: nat, n: nat)
    requires start < n && idx < n && k < n
    requires (start + k) % n == idx
    ensures CyclicDistance(start, idx, n) == k
  {
    if start + k < n {
      ModSmall(start + k, n);
    } else {
      ModWrap(start + k - n, n);
    }
  }

  // ---------------------------------------------------------------------
  // createMorphedText

  /** `replacementMap.get(char) || char`: the mapped text, or the character
      itself when there is no entry or the entry is the empty string. */
  function Glyph(c: char, table: map<char, string>): string
  {
    if c in table && table[c] != "" then table[c] else [c]
  }

  /** `parts.join('')` */
  function Join(parts: seq<string>): string
  {
    if parts == [] then "" else Join(parts[..|parts| - 1]) + parts[|parts| - 1]
  }

  /** Every character as a one-character string, as `chars.map` yields. */
  function Singles(s: seq<char>): (r: seq<string>)
  {
    seq(|s|, i requires 0 <= i < |s| => [s[i]])
  }

  /** The text createMorphedText renders: each character as itself, except
      the one at `cursor`, which becomes its glyph. */
  function MorphedText(chars: seq<char>, table: map<char, string>, cursor: int): string
  {
    Join(seq(|chars|, i requires 0 <= i < |chars| =>
      if i == cursor then Glyph(chars[i], table) else [chars[i]]))
  }

  lemma {:induction false} JoinAppend(a: seq<string>, b: seq<string>)
    ensures Join(a + b) == Join(a) + Join(b)
    decreases |b|
  {
    if b != [] {
      var ab := a + b;
      var b' := b[..|b| - 1];
      assert ab[..|ab| - 1] == a + b';
      assert ab[|ab| - 1] == b[|b| - 1];
      JoinAppend(a, b');
      calc {
        Join(ab);
        Join(a + b') + b[|b| - 1];
        Join(a) + Join(b') + b[|b| - 1];
        Join(a) + (Join(b') + b[|b| - 1]);
        Join(a) + Join(b);
      }
    } else {
      assert a + b == a;
    }
  }

  lemma {:induction false} JoinSingles(s: seq<char>)
    ensures Join(Singles(s)) == s
  {
    if s != [] {
      var init := s[..|s| - 1];
      assert Singles(s)[..|s| - 1] == Singles(init);
      JoinSingles(init);
      assert s == init + [s[|s| - 1]];
    }
  }

  /** The rendered text is the original with only position `cursor` replaced
      by its glyph; a cursor outside the text renders the original. */
  lemma MorphedTextShape(chars: seq<char>, table: map<char, string>, cursor: int)
    ensures 0 <= cursor < |chars| ==>
      MorphedText(chars, table, cursor) ==
        chars[..cursor] + Glyph(chars[cursor], table) + chars[cursor + 1..]
    ensures !(0 <= cursor < |chars|) ==> MorphedText(chars, table, cursor) == chars
  {
    var parts := seq(|chars|, i requires 0 <= i < |chars| =>
      if i == cursor then Glyph(chars[i], table) else [chars[i]]);
    if 0 <= cursor < |chars| {
      var pre, post := chars[..cursor], chars[cursor + 1..];
      assert parts == Singles(pre) + [Glyph(chars[cursor], table)] + Singles(post);
      JoinAppend(Singles(pre) + [Glyph(chars[cursor], table)], Singles(post));
      JoinAppend(Singles(pre), [Glyph(chars[cursor], table)]);
      assert Join([Glyph(chars[cursor], table)]) == Glyph(chars[cursor], table) by {
        assert [Glyph(chars[cursor], table)][..0] == [];
      }
      JoinSingles(pre);
      JoinSingles(post);
    } else {
      assert parts == Singles(chars);
      JoinSingles(chars);
    }
  }

  /** With a one-character substitute (or none), the rendered text has the
      length of the original and differs from it at most at `cursor`, where
      it shows the substitute. */
  lemma MorphedTextDiffersAtCursorOnly(chars: seq<char>, table: map<char, string>, cursor: nat)
    requires cursor < |chars|
    requires chars[cursor] in table ==> |table[chars[cursor]]| <= 1
    ensures |MorphedText(chars, table, cursor)| == |chars|
    ensures forall i :: 0 <= i < |chars| && i != cursor ==>
      MorphedText(chars, table, cursor)[i] == chars[i]
    ensures MorphedText(chars, table, cursor)[cursor] ==
      (if chars[cursor] in table && table[chars[cursor]] != "" then table[chars[cursor]][0]
       else chars[cursor])
  {
    MorphedTextShape(chars, table, cursor);
  }
}
