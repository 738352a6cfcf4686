/**
 * The rules of the blocked-word registry: the add, delete and edit actions of
 * the hub's word-management form, as transformations of the ordered word list.
 * An action either leaves the list as it is (`Unchanged`) or produces the list
 * to be written back and broadcast (`Written`).
 */
module WordRegistry {
  import opened Text

  /** One posted action of the word-management form; an absent form field is the empty string. */
  datatype EditRequest =
    | Add(newWord: string)
    | Delete(wordToDelete: string)
    | Edit(oldWord: string, newWord: string)
    | UnknownAction

  datatype Outcome = Unchanged | Written(words: seq<string>)

  /** The list of lower-cased entries (the comprehension `[w.lower() for w in words_list]`). */
  function LowerAll(ws: seq<string>): seq<string> {
    seq(|ws|, i requires 0 <= i < |ws| => Lower(ws[i]))
  }

  /** The registry invariant: no two entries are equal once lower-cased. */
  ghost predicate NoFoldedDuplicates(ws: seq<string>) {
    forall i, j :: 0 <= i < j < |ws| ==> Lower(ws[i]) != Lower(ws[j])
  }

  /** `x` collides case-insensitively with some entry of `ws`. */
  lemma LowerAllMembership(x: string, ws: seq<string>)
    ensures Lower(x) in LowerAll(ws) <==> exists i :: 0 <= i < |ws| && Lower(ws[i]) == Lower(x)
  {
    if Lower(x) in LowerAll(ws) {
      var i :| 0 <= i < |ws| && LowerAll(ws)[i] == Lower(x);
      assert Lower(ws[i]) == Lower(x);
    }
    if exists i :: 0 <= i < |ws| && Lower(ws[i]) == Lower(x) {
      var i :| 0 <= i < |ws| && Lower(ws[i]) == Lower(x);
      assert LowerAll(ws)[i] == Lower(x);
    }
  }

  /** The filter `[w for w in ws if w != word]`. */
  function Removed(ws: seq<string>, word: string): (r: seq<string>)
    ensures |r| <= |ws|
    ensures forall x :: x in r <==> x in ws && x != word
  {
    if ws == [] then []
    else (if ws[0] == word then [] else [ws[0]]) + Removed(ws[1..], word)
  }

  /** Filtering keeps the relative order of the kept entries: it distributes over concatenation. */
  lemma {:induction false} RemovedConcat(a: seq<string>, b: seq<string>, word: string)
    ensures Removed(a + b, word) == Removed(a, word) + Removed(b, word)
  {
    if a == [] {
      assert a + b == b;
    } else {
      assert (a + b)[1..] == a[1..] + b;
      RemovedConcat(a[1..], b, word);
    }
  }

  /** Filtering out an absent word gives back the list itself. */
  lemma {:induction false} RemovedAbsent(ws: seq<string>, word: string)
    requires word !in ws
    ensures Removed(ws, word) == ws
  {
    if ws != [] {
      assert word !in ws[1..];
      RemovedAbsent(ws[1..], word);
      assert [ws[0]] + ws[1..] == ws;
    }
  }

  /** Filtering never introduces a case-insensitive duplicate. */
  lemma {:induction false} RemovedPreservesNoFoldedDuplicates(ws: seq<string>, word: string)
    requires NoFoldedDuplicates(ws)
    ensures NoFoldedDuplicates(Removed(ws, word))
  {
    if ws != [] {
      var tail := ws[1..];
      assert NoFoldedDuplicates(tail) by {
        forall i, j | 0 <= i < j < |tail| ensures Lower(tail[i]) != Lower(tail[j]) {
          assert tail[i] == ws[i + 1] && tail[j] == ws[j + 1];
        }
      }
      RemovedPreservesNoFoldedDuplicates(tail, word);
      var rest := Removed(tail, word);
      if ws[0] != word {
        var r := [ws[0]] + rest;
        forall i, j | 0 <= i < j < |r| ensures Lower(r[i]) != Lower(r[j]) {
          if i == 0 {
            assert r[j] == rest[j - 1];
            assert rest[j - 1] in tail;
            var m :| 0 <= m < |tail| && tail[m] == rest[j - 1];
            assert ws[m + 1] == r[j];
          } else {
            assert r[i] == rest[i - 1] && r[j] == rest[j - 1];
          }
        }
      }
    }
  }

  /**
   * The edit loop's result: every entry equal to `target` replaced by `replacement`, in
   * place. Defined from the back, as the loop appends one entry at a time.
   */
  function Renamed(ws: seq<string>, target: string, replacement: string): (r: seq<string>)
    ensures |r| == |ws|
    ensures forall k :: 0 <= k < |ws| ==> r[k] == if ws[k] == target then replacement else ws[k]
  {
    if ws == [] then []
    else Renamed(ws[..|ws| - 1], target, replacement) + [if ws[|ws| - 1] == target then replacement else ws[|ws| - 1]]
  }

  /** The add action: trim, then accept a non-empty word that collides with no entry; it goes at the end. */
  function AddWord(ws: seq<string>, raw: string): (r: Outcome)
    ensures r.Written? <==> Strip(raw) != [] && forall i :: 0 <= i < |ws| ==> Lower(ws[i]) != Lower(Strip(raw))
    ensures r.Written? ==> r.words == ws + [Strip(raw)]
    ensures NoFoldedDuplicates(ws) && r.Written? ==> NoFoldedDuplicates(r.words)
  {
    LowerAllMembership(Strip(raw), ws);
    var w := Strip(raw);
    if w != [] && Lower(w) !in LowerAll(ws) then Written(ws + [w]) else Unchanged
  }

  /** The delete action: a present word is removed everywhere (exact match); an absent one changes nothing. */
  function DeleteWord(ws: seq<string>, word: string): (r: Outcome)
    ensures r.Written? <==> word in ws
    ensures r.Written? ==> word !in r.words && forall x :: x != word ==> (x in r.words <==> x in ws)
    ensures r.Written? ==> r.words == Removed(ws, word)
    ensures NoFoldedDuplicates(ws) && r.Written? ==> NoFoldedDuplicates(r.words)
  {
    assert NoFoldedDuplicates(ws) ==> NoFoldedDuplicates(Removed(ws, word)) by {
      if NoFoldedDuplicates(ws) { RemovedPreservesNoFoldedDuplicates(ws, word); }
    }
    if word in ws then Written(Removed(ws, word)) else Unchanged
  }

  /** `x` collides case-insensitively with an entry other than `target` exactly when it does so in the filtered list. */
  lemma CollisionExcept(ws: seq<string>, target: string, x: string)
    ensures Lower(x) in LowerAll(Removed(ws, target))
        <==> exists i :: 0 <= i < |ws| && ws[i] != target && Lower(ws[i]) == Lower(x)
  {
    var rest := Removed(ws, target);
    LowerAllMembership(x, rest);
    if Lower(x) in LowerAll(rest) {
      var m :| 0 <= m < |rest| && Lower(rest[m]) == Lower(x);
      assert rest[m] in rest;
      var i :| 0 <= i < |ws| && ws[i] == rest[m];
      assert ws[i] != target && Lower(ws[i]) == Lower(x);
    }
    if exists i :: 0 <= i < |ws| && ws[i] != target && Lower(ws[i]) == Lower(x) {
      var i :| 0 <= i < |ws| && ws[i] != target && Lower(ws[i]) == Lower(x);
      assert ws[i] in rest;
      var m :| 0 <= m < |rest| && rest[m] == ws[i];
      assert LowerAll(rest)[m] == Lower(x);
    }
  }

  /** The edit action's invariant: renaming keeps the list free of case-insensitive duplicates. */
  lemma RenamedPreservesNoFoldedDuplicates(ws: seq<string>, target: string, replacement: string)
    requires NoFoldedDuplicates(ws)
    requires forall i :: 0 <= i < |ws| && ws[i] != target ==> Lower(ws[i]) != Lower(replacement)
    ensures NoFoldedDuplicates(Renamed(ws, target, replacement))
  {
    var r := Renamed(ws, target, replacement);
    forall i, j | 0 <= i < j < |r| ensures Lower(r[i]) != Lower(r[j]) {
      assert Lower(ws[i]) != Lower(ws[j]);
    }
  }

  /**
   * The edit action: `target` must be present and the trimmed `replacement` non-empty and
   * free of case-insensitive collisions with every entry other than `target`;
   * then `target` is replaced in place and nothing else moves.
   */
  function RenameWord(ws: seq<string>, target: string, raw: string): (r: Outcome)
    ensures r.Written? <==>
      && target in ws
      && Strip(raw) != []
      && forall i :: 0 <= i < |ws| && ws[i] != target ==> Lower(ws[i]) != Lower(Strip(raw))
    ensures r.Written? ==>
      && |r.words| == |ws|
      && forall k :: 0 <= k < |ws| ==> r.words[k] == if ws[k] == target then Strip(raw) else ws[k]
    ensures NoFoldedDuplicates(ws) && r.Written? ==> NoFoldedDuplicates(r.words)
  {
    var replacement := Strip(raw);
    CollisionExcept(ws, target, replacement);
    if target in ws && replacement != [] && Lower(replacement) !in LowerAll(Removed(ws, target)) then
      assert NoFoldedDuplicates(ws) ==> NoFoldedDuplicates(Renamed(ws, target, replacement)) by {
        if NoFoldedDuplicates(ws) { RenamedPreservesNoFoldedDuplicates(ws, target, replacement); }
      }
      Written(Renamed(ws, target, replacement))
    else
      Unchanged
  }

  /** Dispatch on the form's action; an unknown or missing action changes nothing. */
  function Apply(ws: seq<string>, req: EditRequest): (r: Outcome)
    ensures req.UnknownAction? ==> r == Unchanged
    ensures NoFoldedDuplicates(ws) && r.Written? ==> NoFoldedDuplicates(r.words)
  {
    match req
    case Add(raw) => AddWord(ws, raw)
    case Delete(word) => DeleteWord(ws, word)
    case Edit(target, raw) => RenameWord(ws, target, raw)
    case UnknownAction => Unchanged
  }

  /** Adding a case variant of an existing word is rejected. */
  lemma AddCaseVariantRejected(ws: seq<string>, raw: string, i: nat)
    requires i < |ws| && Lower(ws[i]) == Lower(Strip(raw))
    ensures AddWord(ws, raw) == Unchanged
  {
  }

  /** "Test" is refused when "test" is already listed. */
  lemma AddTestWhenTestListed()
    ensures AddWord(["test"], "Test") == Unchanged
  {
    assert LeadLen("Test") == 0 && TrailLen("Test") == 0;
    assert Strip("Test") == "Test";
    var ws: seq<string> := ["test"];
    var t := Lower("Test");
    assert t[0] == 't' && t[1] == 'e' && t[2] == 's' && t[3] == 't';
    assert t == Lower(ws[0]);
    AddCaseVariantRejected(ws, "Test", 0);
  }

  /** Deleting twice is deleting once: the second delete finds nothing and writes nothing. */
  lemma DeleteTwiceNoop(ws: seq<string>, word: string)
    requires DeleteWord(ws, word).Written?
    ensures DeleteWord(DeleteWord(ws, word).words, word) == Unchanged
  {
  }
}
