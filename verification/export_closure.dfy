/** The export closure (`includeExportDependencies`): a depth-first walk from
    the seed modules that follows the dependents of every visited module that
    exports something, with a visited set so that each module is expanded at
    most once. Both revisions run this same walk; they differ only in which
    modules count as exporting, so that set is a parameter here. */
module ExportClosure {
  import opened ProjectModel

  /** Every module that appears as somebody's dependent. */
  function Listed(p: Project): (r: set<Module>)
    ensures forall m, d :: d in DependentsOf(p, m) ==> d in r
  {
    set m, d | m in p.dependents && d in p.dependents[m] :: d
  }

  /** `c` contains every dependent of each of its exporting members. */
  ghost predicate ClosedUnder(p: Project, exporting: set<Module>, c: set<Module>) {
    forall m, d :: m in c && m in exporting && d in DependentsOf(p, m) ==> d in c
  }

  /** The modules still to be visited: the universe minus the visited set. */
  lemma FewerUnvisited(u: set<Module>, visited: set<Module>, m: Module)
    requires m in u && m !in visited
    ensures |u - (visited + {m})| < |u - visited|
  {
    var rest := u - (visited + {m});
    assert u - visited == rest + {m};
  }

  /** A larger visited set leaves no more modules unvisited. */
  lemma NoMoreUnvisited(u: set<Module>, visited: set<Module>, bigger: set<Module>)
    requires visited <= bigger
    ensures |u - bigger| <= |u - visited|
  {
    var small := u - bigger;
    var large := u - visited;
    assert large == small + (large - small);
    assert small * (large - small) == {};
  }

  /** The recursive walk: visits `todo` in order, skipping visited modules,
      and dives into the dependents of each newly visited exporting module
      before moving on. The measure is the number of unvisited modules of the
      universe `u`, which holds every module the walk can reach. */
  function Expand(p: Project, exporting: set<Module>, u: set<Module>,
                  todo: seq<Module>, visited: set<Module>): (r: set<Module>)
    requires Listed(p) <= u
    requires forall m :: m in todo ==> m in u
    ensures visited <= r
    ensures forall m :: m in todo ==> m in r
    decreases |u - visited|, |todo|
  {
    if todo == [] then visited
    else
      var m := todo[0];
      if m in visited then Expand(p, exporting, u, todo[1..], visited)
      else if m !in exporting then
        FewerUnvisited(u, visited, m);
        Expand(p, exporting, u, todo[1..], visited + {m})
      else
        FewerUnvisited(u, visited, m);
        var inner := Expand(p, exporting, u, DependentsOf(p, m), visited + {m});
        NoMoreUnvisited(u, visited + {m}, inner);
        Expand(p, exporting, u, todo[1..], inner)
  }

  /** The walk never leaves the universe. */
  lemma {:induction false} ExpandWithin(p: Project, exporting: set<Module>, u: set<Module>,
                                        todo: seq<Module>, visited: set<Module>)
    requires Listed(p) <= u
    requires forall m :: m in todo ==> m in u
    ensures Expand(p, exporting, u, todo, visited) <= visited + u
    decreases |u - visited|, |todo|
  {
    if todo != [] {
      var m := todo[0];
      if m in visited {
        ExpandWithin(p, exporting, u, todo[1..], visited);
      } else if m !in exporting {
        FewerUnvisited(u, visited, m);
        ExpandWithin(p, exporting, u, todo[1..], visited + {m});
      } else {
        FewerUnvisited(u, visited, m);
        var inner := Expand(p, exporting, u, DependentsOf(p, m), visited + {m});
        ExpandWithin(p, exporting, u, DependentsOf(p, m), visited + {m});
        NoMoreUnvisited(u, visited + {m}, inner);
        ExpandWithin(p, exporting, u, todo[1..], inner);
      }
    }
  }

  /** Every member of `r` outside `visited` is fully expanded: if it
      exports, all its dependents are in `r`. */
  ghost predicate NewMembersClosed(p: Project, exporting: set<Module>, visited: set<Module>, r: set<Module>) {
    forall m, d :: m in r && m !in visited && m in exporting && d in DependentsOf(p, m) ==> d in r
  }

  /** Every module the walk adds is fully expanded. */
  lemma {:induction false} ExpandClosesNewMembers(p: Project, exporting: set<Module>, u: set<Module>,
                                                  todo: seq<Module>, visited: set<Module>)
    requires Listed(p) <= u
    requires forall m :: m in todo ==> m in u
    ensures NewMembersClosed(p, exporting, visited, Expand(p, exporting, u, todo, visited))
    decreases |u - visited|, |todo|
  {
    if todo != [] {
      var m := todo[0];
      if m in visited {
        ExpandClosesNewMembers(p, exporting, u, todo[1..], visited);
      } else if m !in exporting {
        FewerUnvisited(u, visited, m);
        var r := Expand(p, exporting, u, todo[1..], visited + {m});
        ExpandClosesNewMembers(p, exporting, u, todo[1..], visited + {m});
        assert NewMembersClosed(p, exporting, visited + {m}, r);
      } else {
        FewerUnvisited(u, visited, m);
        var inner := Expand(p, exporting, u, DependentsOf(p, m), visited + {m});
        ExpandClosesNewMembers(p, exporting, u, DependentsOf(p, m), visited + {m});
        NoMoreUnvisited(u, visited + {m}, inner);
        var r := Expand(p, exporting, u, todo[1..], inner);
        ExpandClosesNewMembers(p, exporting, u, todo[1..], inner);
        assert NewMembersClosed(p, exporting, visited + {m}, inner);
        assert NewMembersClosed(p, exporting, inner, r);
      }
    }
  }

  /** The walk adds nothing outside any set that holds the visited modules and
      the pending ones and is closed under the dependents of exporters. */
  lemma {:induction false} ExpandLeast(p: Project, exporting: set<Module>, u: set<Module>,
                                       todo: seq<Module>, visited: set<Module>, c: set<Module>)
    requires Listed(p) <= u
    requires forall m :: m in todo ==> m in u
    requires visited <= c
    requires forall m :: m in todo ==> m in c
    requires ClosedUnder(p, exporting, c)
    ensures Expand(p, exporting, u, todo, visited) <= c
    decreases |u - visited|, |todo|
  {
    if todo != [] {
      var m := todo[0];
      if m in visited {
        ExpandLeast(p, exporting, u, todo[1..], visited, c);
      } else if m !in exporting {
        FewerUnvisited(u, visited, m);
        ExpandLeast(p, exporting, u, todo[1..], visited + {m}, c);
      } else {
        FewerUnvisited(u, visited, m);
        var inner := Expand(p, exporting, u, DependentsOf(p, m), visited + {m});
        ExpandLeast(p, exporting, u, DependentsOf(p, m), visited + {m}, c);
        NoMoreUnvisited(u, visited + {m}, inner);
        ExpandLeast(p, exporting, u, todo[1..], inner, c);
      }
    }
  }

  /** The closure of `seeds`: the walk from the seeds with nothing visited. It
      holds every seed, is closed under the dependents of its exporting
      members, is the least such set, and stays within the seeds and the
      listed dependents. */
  function Closure(p: Project, exporting: set<Module>, seeds: seq<Module>): (r: set<Module>)
    ensures forall m :: m in seeds ==> m in r
    ensures ClosedUnder(p, exporting, r)
    ensures forall c :: (forall m :: m in seeds ==> m in c) && ClosedUnder(p, exporting, c) ==> r <= c
    ensures forall m :: m in r ==> m in seeds || m in Listed(p)
  {
    var u := Listed(p) + set m | m in seeds;
    ExpandWithin(p, exporting, u, seeds, {});
    ExpandClosesNewMembers(p, exporting, u, seeds, {});
    assert NewMembersClosed(p, exporting, {}, Expand(p, exporting, u, seeds, {}));
    forall c | (forall m :: m in seeds ==> m in c) && ClosedUnder(p, exporting, c)
      ensures Expand(p, exporting, u, seeds, {}) <= c
    {
      ExpandLeast(p, exporting, u, seeds, {}, c);
    }
    Expand(p, exporting, u, seeds, {})
  }
}
