/** The planning half of the batch renamer in rename.py: choosing the files to
    move (`collecter_fichiers`), finding a free name in the destination
    directory (`generer_nom_unique`) and building the list of moves
    (`renommer_deplacer`).

    The environment is passed in explicitly: the recursive directory walk is a
    sequence of entries, the regular expression is a match predicate and a
    substitution function on names, and the destination directory's contents
    are a snapshot: the finite set of names that already exist in it. */
module Rename {
  import opened PathNames

  /** One path yielded by the recursive walk, with the answer `is_file()`
      gives for it. */
  datatype Entry = Entry(path: FsPath, isFile: bool)

  /** A planned move: (source file, destination path). */
  datatype Action = Action(source: FsPath, dest: FsPath)

  // ---------------------------------------------------------------------
  // collecter_fichiers

  /** The filter of the list comprehension: a regular file whose base name
      the pattern matches. */
  predicate Selected(e: Entry, matches: string -> bool)
  {
    e.isFile && matches(e.path.name)
  }

  /** The walk's regular files whose names match, in walk order. */
  function CollectFiles(entries: seq<Entry>, matches: string -> bool): (files: seq<FsPath>)
    ensures |files| <= |entries|
    ensures forall p :: p in files <==> exists e :: e in entries && Selected(e, matches) && e.path == p
  {
    if entries == [] then []
    else
      var rest := CollectFiles(entries[1..], matches);
      assert forall e :: e in entries <==> e == entries[0] || e in entries[1..];
      if Selected(entries[0], matches) then [entries[0].path] + rest else rest
  }

  /** Collecting over two consecutive stretches of the walk yields the files
      of the first followed by those of the second: the walk order is kept
      and each selected entry contributes exactly once. */
  lemma {:induction false} CollectAppend(a: seq<Entry>, b: seq<Entry>, matches: string -> bool)
    ensures CollectFiles(a + b, matches) == CollectFiles(a, matches) + CollectFiles(b, matches)
  {
    if a == [] {
      assert a + b == b;
    } else {
      assert (a + b)[1..] == a[1..] + b;
      CollectAppend(a[1..], b, matches);
    }
  }

  /** A single entry is kept exactly when it is a matching regular file. */
  lemma CollectOne(e: Entry, matches: string -> bool)
    ensures CollectFiles([e], matches) == if Selected(e, matches) then [e.path] else []
  {
    assert [e][1..] == [];
  }

  /** The number of files collected is the number of selected entries. */
  function CountSelected(entries: seq<Entry>, matches: string -> bool): nat
  {
    if entries == [] then 0
    else (if Selected(entries[0], matches) then 1 else 0) + CountSelected(entries[1..], matches)
  }

  lemma {:induction false} CollectCount(entries: seq<Entry>, matches: string -> bool)
    ensures |CollectFiles(entries, matches)| == CountSelected(entries, matches)
  {
    if entries != [] {
      CollectCount(entries[1..], matches);
    }
  }

  // ---------------------------------------------------------------------
  // generer_nom_unique

  /** The k-th name tried for `nom`: `nom` itself for k = 0, otherwise
      `{stem}_{k}{ext}` with stem and suffix taken from `nom`. */
  function Candidate(nom: string, k: nat): string
  {
    if k == 0 then nom else Stem(nom) + "_" + Decimal(k) + Suffix(nom)
  }

  /** Each counter yields a name of its own, so no name is tried twice. */
  lemma CandidateInjective(nom: string, a: nat, b: nat)
    requires Candidate(nom, a) == Candidate(nom, b)
    ensures a == b
  {
    StemSuffixSplit(nom);
    DecimalShape(a);
    DecimalShape(b);
    if a > 0 && b > 0 {
      var st, ex := Stem(nom), Suffix(nom);
      var c := Candidate(nom, a);
      assert c == st + "_" + Decimal(a) + ex;
      assert c[|st| + 1 .. |c| - |ex|] == Decimal(a);
      assert c[|st| + 1 .. |c| - |ex|] == Decimal(b);
      DecimalInjective(a, b);
    }
  }

  /** The names tried before the n-th: candidates 0 .. n-1. */
  function NamesBelow(nom: string, n: nat): set<string>
  {
    if n == 0 then {} else NamesBelow(nom, n - 1) + {Candidate(nom, n - 1)}
  }

  lemma {:induction false} CandidateNotBelow(nom: string, n: nat, m: nat)
    requires n <= m
    ensures Candidate(nom, m) !in NamesBelow(nom, n)
  {
    if n > 0 {
      CandidateNotBelow(nom, n - 1, m);
      if Candidate(nom, n - 1) == Candidate(nom, m) {
        CandidateInjective(nom, n - 1, m);
      }
    }
  }

  lemma {:induction false} NamesBelowSize(nom: string, n: nat)
    ensures |NamesBelow(nom, n)| == n
  {
    if n > 0 {
      var c := Candidate(nom, n - 1);
      NamesBelowSize(nom, n - 1);
      CandidateNotBelow(nom, n - 1, n - 1);
      assert NamesBelow(nom, n) == NamesBelow(nom, n - 1) + {c};
    }
  }

  /** The least counter k from `from` on whose candidate is absent, given that
      the candidates below `from` are all present. Termination: the candidates
      are pairwise distinct and only finitely many are present. */
  function FirstFreeFrom(nom: string, existing: set<string>, from: nat): (k: nat)
    requires NamesBelow(nom, from) <= existing
    ensures from <= k
    ensures Candidate(nom, k) !in existing
    ensures NamesBelow(nom, k) <= existing
    decreases existing - NamesBelow(nom, from)
  {
    if Candidate(nom, from) !in existing then from
    else
      TriedOneMore(nom, existing, from);
      FirstFreeFrom(nom, existing, from + 1)
  }

  /** Trying a present candidate leaves strictly fewer present names untried. */
  lemma TriedOneMore(nom: string, existing: set<string>, from: nat)
    requires NamesBelow(nom, from) <= existing
    requires Candidate(nom, from) in existing
    ensures NamesBelow(nom, from + 1) <= existing
    ensures existing - NamesBelow(nom, from + 1) < existing - NamesBelow(nom, from)
  {
    var c := Candidate(nom, from);
    CandidateNotBelow(nom, from, from);
    assert NamesBelow(nom, from + 1) == NamesBelow(nom, from) + {c};
    assert c in existing - NamesBelow(nom, from);
    assert c !in existing - NamesBelow(nom, from + 1);
  }

  /** The counter whose candidate `generer_nom_unique` returns. */
  function FirstFree(nom: string, existing: set<string>): (k: nat)
    ensures Candidate(nom, k) !in existing
    ensures forall j :: 0 <= j < k ==> Candidate(nom, j) in existing
  {
    var k := FirstFreeFrom(nom, existing, 0);
    CandidatesBelow(nom, k);
    k
  }

  lemma CandidatesBelow(nom: string, n: nat)
    ensures forall j :: 0 <= j < n ==> Candidate(nom, j) in NamesBelow(nom, n)
  {
    forall j | 0 <= j < n
      ensures Candidate(nom, j) in NamesBelow(nom, n)
    {
      CandidateBelow(nom, j, n);
    }
  }

  lemma {:induction false} CandidateBelow(nom: string, j: nat, n: nat)
    requires j < n
    ensures Candidate(nom, j) in NamesBelow(nom, n)
  {
    assert NamesBelow(nom, n) == NamesBelow(nom, n - 1) + {Candidate(nom, n - 1)};
    if j < n - 1 {
      CandidateBelow(nom, j, n - 1);
    }
  }

  /** What `generer_nom_unique(dossier, nom)` returns when the names present
      in `dossier` are `existing`. */
  function UniquePath(dir: string, nom: string, existing: set<string>): (p: FsPath)
    ensures p.dir == dir
    ensures p.name !in existing
  {
    FsPath(dir, Candidate(nom, FirstFree(nom, existing)))
  }

  /** A free name is returned unchanged, and only a free name is. */
  lemma UniqueKeepsFreeName(dir: string, nom: string, existing: set<string>)
    ensures UniquePath(dir, nom, existing) == FsPath(dir, nom) <==> nom !in existing
  {
    var k := FirstFree(nom, existing);
    assert 0 < k ==> Candidate(nom, 0) in existing;
  }

  /** A taken name is replaced by `{stem}_{k}{ext}`, stem and suffix from the
      original name, for the least k >= 1 whose name is absent: every smaller
      counter's name is present. */
  lemma UniqueLeastCounter(dir: string, nom: string, existing: set<string>)
    requires nom in existing
    ensures var k := FirstFree(nom, existing);
      && 1 <= k
      && UniquePath(dir, nom, existing).name == Stem(nom) + "_" + Decimal(k) + Suffix(nom)
      && forall j :: 1 <= j < k ==> Stem(nom) + "_" + Decimal(j) + Suffix(nom) in existing
  {
    var k := FirstFree(nom, existing);
    assert Candidate(nom, 0) == nom;
    forall j | 1 <= j < k
      ensures Stem(nom) + "_" + Decimal(j) + Suffix(nom) in existing
    {
      assert Candidate(nom, j) in existing;
    }
  }

  /** At most |existing| + 1 names are tried: the counter reached never
      exceeds the number of names present. */
  lemma FirstFreeBound(nom: string, existing: set<string>)
    ensures FirstFree(nom, existing) <= |existing|
  {
    var k := FirstFree(nom, existing);
    var below := NamesBelow(nom, k);
    assert below <= existing by {
      forall x | x in below ensures x in existing {
        BelowAreCandidates(nom, k, x);
      }
    }
    NamesBelowSize(nom, k);
    assert existing == below + (existing - below);
  }

  lemma {:induction false} BelowAreCandidates(nom: string, n: nat, x: string)
    requires x in NamesBelow(nom, n)
    ensures exists j :: 0 <= j < n && x == Candidate(nom, j)
  {
    if x != Candidate(nom, n - 1) {
      BelowAreCandidates(nom, n - 1, x);
    }
  }

  /** `generer_nom_unique`: starting from `dossier / nom`, while the path
      exists try `{stem}_{compteur}{ext}` for compteur = 1, 2, ..., with stem
      and suffix recomputed from the original `nom` on every round. */
  method UniqueName(dir: string, nom: string, existing: set<string>) returns (path: FsPath)
    ensures path == UniquePath(dir, nom, existing)
  {
    path := FsPath(dir, nom);
    var counter: nat := 1;
    while path.name in existing
      invariant 1 <= counter
      invariant path == FsPath(dir, Candidate(nom, counter - 1))
      invariant NamesBelow(nom, counter - 1) <= existing
      invariant FirstFreeFrom(nom, existing, counter - 1) == FirstFree(nom, existing)
      decreases existing - NamesBelow(nom, counter - 1)
    {
      CandidateNotBelow(nom, counter - 1, counter - 1);
      var stem := Stem(nom);
      var ext := Suffix(nom);
      path := FsPath(dir, stem + "_" + Decimal(counter) + ext);
      counter := counter + 1;
    }
  }

  // ---------------------------------------------------------------------
  // renommer_deplacer

  /** The moves planned for `files`: each file paired with the free path, in
      the destination, of its substituted base name. Every destination is
      resolved against the same snapshot `existing`. */
  function Planned(files: seq<FsPath>, destDir: string, existing: set<string>,
                   sub: string -> string): (actions: seq<Action>)
    ensures |actions| == |files|
    ensures forall i :: 0 <= i < |files| ==>
      actions[i].source == files[i] && actions[i].dest.dir == destDir && actions[i].dest.name !in existing
  {
    var actions := seq(|files|, i requires 0 <= i < |files| =>
      Action(files[i], UniquePath(destDir, sub(files[i].name), existing)));
    assert forall i :: 0 <= i < |files| ==>
      actions[i] == Action(files[i], UniquePath(destDir, sub(files[i].name), existing));
    actions
  }

  /** `renommer_deplacer`: for each collected file, in order, substitute in
      its base name, resolve a free destination path and append the move. */
  method PlanMoves(entries: seq<Entry>, destDir: string, existing: set<string>,
                   matches: string -> bool, sub: string -> string)
    returns (actions: seq<Action>)
    ensures actions == Planned(CollectFiles(entries, matches), destDir, existing, sub)
  {
    var files := CollectFiles(entries, matches);
    ghost var plan := Planned(files, destDir, existing, sub);
    actions := [];
    for i := 0 to |files|
      invariant actions == plan[..i]
    {
      var newName := sub(files[i].name);
      var newPath := UniqueName(destDir, newName, existing);
      PlannedFlattens(files, destDir, existing, sub, i);
      assert plan[..i + 1] == plan[..i] + [plan[i]];
      actions := actions + [Action(files[i], newPath)];
    }
    assert plan[..|files|] == plan;
  }

  /** Only the substituted base name decides a destination: the source's
      directory is dropped. */
  lemma PlannedFlattens(files: seq<FsPath>, destDir: string, existing: set<string>,
                        sub: string -> string, i: nat)
    requires i < |files|
    ensures var a := Planned(files, destDir, existing, sub)[i];
      a.dest == UniquePath(destDir, sub(files[i].name), existing)
  {
  }

  /** No in-batch reservation: two files whose substituted names agree are
      planned onto the same destination path. */
  lemma PlannedSameNameSameDest(files: seq<FsPath>, destDir: string, existing: set<string>,
                                sub: string -> string, i: nat, j: nat)
    requires i < |files| && j < |files|
    requires sub(files[i].name) == sub(files[j].name)
    ensures Planned(files, destDir, existing, sub)[i].dest == Planned(files, destDir, existing, sub)[j].dest
  {
  }

  /** Planning a batch is planning its parts one after the other against the
      same snapshot: no file's destination depends on the files before it. */
  lemma PlannedAppend(a: seq<FsPath>, b: seq<FsPath>, destDir: string, existing: set<string>,
                      sub: string -> string)
    ensures Planned(a + b, destDir, existing, sub)
         == Planned(a, destDir, existing, sub) + Planned(b, destDir, existing, sub)
  {
    var whole, left, right := Planned(a + b, destDir, existing, sub),
      Planned(a, destDir, existing, sub), Planned(b, destDir, existing, sub);
    forall i | 0 <= i < |a + b|
      ensures whole[i] == (left + right)[i]
    {
      PlannedFlattens(a + b, destDir, existing, sub, i);
      if i < |a| {
        PlannedFlattens(a, destDir, existing, sub, i);
      } else {
        PlannedFlattens(b, destDir, existing, sub, i - |a|);
      }
    }
  }
}
