/** The employee directory: a map from department name to the list of its
    employees, with adding, removing and sorted queries, and the parser for
    the text commands that drive it. The interactive loop and the printing
    helpers are not part of this model. */
module Employees {
  import opened Common
  import opened Text
  import opened Sorting

  /** The directory's invariant: every department listed has at least one
      employee and names nobody twice. */
  predicate WellFormed(departments: map<string, seq<string>>) {
    forall d :: d in departments ==> departments[d] != [] && NoDuplicates(departments[d])
  }

  /** The directory after `add_employee(name, department)`: the department
      is created if absent and `name` appended, unless it is already
      listed there. */
  function AddTo(departments: map<string, seq<string>>, name: string, department: string): map<string, seq<string>> {
    var employees := if department in departments then departments[department] else [];
    if name in employees then departments
    else departments[department := employees + [name]]
  }

  /** The directory after a successful or failed `remove_employee(name,
      department)`: the first `name` in the department is removed, and the
      department with it once it has nobody left. */
  function RemoveFrom(departments: map<string, seq<string>>, name: string, department: string): map<string, seq<string>> {
    if department !in departments then departments
    else
      var employees := departments[department];
      match Position(employees, x => x == name)
      case None => departments
      case Some(pos) =>
        var rest := employees[..pos] + employees[pos + 1..];
        if rest == [] then departments - {department} else departments[department := rest]
  }

  /** Adding creates the department if needed and leaves `name` in it; a
      name already listed changes nothing; otherwise it goes at the end of
      that one list, and every other department is untouched. */
  lemma AddToSpec(departments: map<string, seq<string>>, name: string, department: string)
    ensures var after := AddTo(departments, name, department);
      && department in after
      && name in after[department]
      && (department in departments && name in departments[department] ==> after == departments)
      && (department in departments && name !in departments[department] ==>
            after[department] == departments[department] + [name])
      && (department !in departments ==> after[department] == [name])
      && after.Keys == departments.Keys + {department}
      && (forall d :: d in departments && d != department ==> after[d] == departments[d])
  {
  }

  /** Adding keeps the directory well formed. */
  lemma AddToKeepsWellFormed(departments: map<string, seq<string>>, name: string, department: string)
    requires WellFormed(departments)
    ensures WellFormed(AddTo(departments, name, department))
  {
    var after := AddTo(departments, name, department);
    if department !in departments || name !in departments[department] {
      var employees := if department in departments then departments[department] else [];
      forall p, q | 0 <= p < q < |employees + [name]|
        ensures (employees + [name])[p] != (employees + [name])[q]
      {
        if q == |employees| {
          assert employees[p] in employees;
        }
      }
    }
  }

  /** Removing a name that is listed in the department takes out one
      occurrence of it and nothing else, and drops the department exactly
      when that was its last employee. */
  lemma RemoveFromListed(departments: map<string, seq<string>>, name: string, department: string)
    requires department in departments && name in departments[department]
    ensures var after := RemoveFrom(departments, name, department);
      && multiset(if department in after then after[department] else [])
           == multiset(departments[department]) - multiset{name}
      && (department !in after <==> departments[department] == [name])
  {
    var employees := departments[department];
    var found := Position(employees, x => x == name);
    var k :| 0 <= k < |employees| && employees[k] == name;
    assert found.Some?;
    var pos := found.value;
    var rest := employees[..pos] + employees[pos + 1..];
    assert employees == employees[..pos] + [name] + employees[pos + 1..];
    assert multiset(employees) == multiset(employees[..pos]) + multiset{name} + multiset(employees[pos + 1..]);
    assert |rest| == |employees| - 1;
    if rest == [] {
      assert employees == [name];
    }
  }

  /** Removing a name the department does not list changes nothing. */
  lemma RemoveFromUnlisted(departments: map<string, seq<string>>, name: string, department: string)
    requires !(department in departments && name in departments[department])
    ensures RemoveFrom(departments, name, department) == departments
  {
  }

  /** Removing never touches another department and never adds one. */
  lemma RemoveFromOthers(departments: map<string, seq<string>>, name: string, department: string)
    ensures var after := RemoveFrom(departments, name, department);
      && (forall d :: d in departments && d != department ==> d in after && after[d] == departments[d])
      && after.Keys <= departments.Keys
  {
  }

  /** Removing keeps the directory well formed. */
  lemma RemoveFromKeepsWellFormed(departments: map<string, seq<string>>, name: string, department: string)
    requires WellFormed(departments)
    ensures WellFormed(RemoveFrom(departments, name, department))
  {
    if department in departments {
      var employees := departments[department];
      match Position(employees, x => x == name)
      case None =>
      case Some(pos) =>
        var rest := employees[..pos] + employees[pos + 1..];
        forall p, q | 0 <= p < q < |rest| ensures rest[p] != rest[q] {
          var p' := if p < pos then p else p + 1;
          var q' := if q < pos then q else q + 1;
          assert rest[p] == employees[p'] && rest[q] == employees[q'];
        }
    }
  }

  /** Adding a name that is not yet listed and removing it again gives back
      the directory it started from. */
  lemma AddThenRemove(departments: map<string, seq<string>>, name: string, department: string)
    requires WellFormed(departments)
    requires department !in departments || name !in departments[department]
    ensures RemoveFrom(AddTo(departments, name, department), name, department) == departments
  {
    var employees := if department in departments then departments[department] else [];
    var added := employees + [name];
    AppendedIsFound(employees, name);
    assert AddTo(departments, name, department) == departments[department := added];
  }

  /** A name appended to a list that does not hold it is found last, and
      taking it out gives back the list. */
  lemma AppendedIsFound(employees: seq<string>, name: string)
    requires name !in employees
    ensures Position(employees + [name], x => x == name) == Some(|employees|)
    ensures var added := employees + [name];
      added[..|employees|] + added[|employees| + 1..] == employees
  {
    var added := employees + [name];
    var pos := |employees|;
    assert added[pos] == name;
    assert forall k :: 0 <= k < pos ==> added[k] == employees[k];
    PositionIs(added, x => x == name, pos);
    assert added[..pos] == employees;
  }

  /** The remove test: Alice and Bob join Engineering, Alice is removed and
      only Bob is left; removing Charlie, who was never added, changes
      nothing. */
  lemma RemoveExample(alice: string, bob: string, charlie: string, engineering: string)
    requires alice != bob && charlie != alice && charlie != bob
    ensures var both := AddTo(AddTo(map[], alice, engineering), bob, engineering);
      && both == map[engineering := [alice, bob]]
      && RemoveFrom(both, alice, engineering) == map[engineering := [bob]]
      && RemoveFrom(RemoveFrom(both, alice, engineering), charlie, engineering) == map[engineering := [bob]]
  {
    var one := AddTo(map[], alice, engineering);
    AddToSpec(map[], alice, engineering);
    assert one == map[engineering := [alice]];
    var both := AddTo(one, bob, engineering);
    assert bob !in one[engineering];
    AddToSpec(one, bob, engineering);
    assert [alice] + [bob] == [alice, bob];
    assert both == map[engineering := [alice, bob]];
    match Position(both[engineering], x => x == alice) {
      case None =>
      case Some(found) =>
        assert found == 0;
        assert both[engineering][..0] + both[engineering][1..] == [bob];
        assert both[engineering := [bob]] == map[engineering := [bob]];
    }
    RemoveFromUnlisted(map[engineering := [bob]], charlie, engineering);
  }

  /** `LexLe` is the order Rust sorts strings by. */
  lemma LexLeIsTotalPreorder()
    ensures TotalPreorder(LexLe)
  {
    forall a, b ensures LexLe(a, b) || LexLe(b, a) {
      LexLeTotal(a, b);
    }
    forall a, b, c | LexLe(a, b) && LexLe(b, c) ensures LexLe(a, c) {
      LexLeTransitive(a, b, c);
    }
  }

  /** A sorted copy of `names`, as `clone()` followed by `sort()`. */
  method SortedCopy(names: seq<string>) returns (sorted: seq<string>)
    ensures SortedBy(sorted, LexLe)
    ensures multiset(sorted) == multiset(names)
  {
    var a := new string[|names|](k requires 0 <= k < |names| => names[k]);
    assert a[..] == names;
    LexLeIsTotalPreorder();
    SortInPlace(a, LexLe);
    sorted := a[..];
  }

  class EmployeeManager {
    var departments: map<string, seq<string>>

    ghost predicate Valid()
      reads this
    {
      WellFormed(departments)
    }

    /** `EmployeeManager::new`: an empty directory. */
    constructor ()
      ensures Valid()
      ensures departments == map[]
    {
      departments := map[];
    }

    /** `add_employee(name, department)`. */
    method AddEmployee(name: string, department: string)
      requires Valid()
      modifies this
      ensures Valid()
      ensures departments == AddTo(old(departments), name, department)
    {
      AddToKeepsWellFormed(departments, name, department);
      var employees := if department in departments then departments[department] else [];
      departments := departments[department := employees];
      if name in employees {
        // already listed: the directory is left as it was
        assert departments == old(departments);
      } else {
        departments := departments[department := employees + [name]];
      }
    }

    /** `remove_employee(name, department)`: true when the name was listed
      and has been removed. */
    method RemoveEmployee(name: string, department: string) returns (removed: bool)
      requires Valid()
      modifies this
      ensures Valid()
      ensures removed <==> department in old(departments) && name in old(departments)[department]
      ensures departments == RemoveFrom(old(departments), name, department)
    {
      RemoveFromKeepsWellFormed(departments, name, department);
      if !(department in departments && name in departments[department]) {
        RemoveFromUnlisted(departments, name, department);
      }
      if department in departments {
        var employees := departments[department];
        var found := Position(employees, x => x == name);
        if found.Some? {
          var pos := found.value;
          employees := employees[..pos] + employees[pos + 1..];
          departments := departments[department := employees];
          if employees == [] {
            departments := departments - {department};
          }
          return true;
        }
      }
      return false;
    }

    /** `get_department_employees(department)`: None for an unknown
      department, otherwise its employees in ascending order. */
    method GetDepartmentEmployees(department: string) returns (r: Option<seq<string>>)
      ensures r.None? <==> department !in departments
      ensures r.Some? ==> SortedBy(r.value, LexLe)
      ensures r.Some? ==> multiset(r.value) == multiset(departments[department])
    {
      if department in departments {
        var sorted := SortedCopy(departments[department]);
        return Some(sorted);
      }
      return None;
    }

    /** The department names, in no particular order, as
      `keys().cloned().collect()`. */
    method DepartmentNames() returns (names: seq<string>)
      ensures forall d :: d in names <==> d in departments
      ensures NoDuplicates(names)
    {
      names := [];
      var pending := departments.Keys;
      while pending != {}
        invariant pending <= departments.Keys
        invariant forall d :: d in names <==> d in departments && d !in pending
        invariant NoDuplicates(names)
        decreases |pending|
      {
        var d :| d in pending;
        names := names + [d];
        pending := pending - {d};
      }
    }

    /** `get_departments()`: every department name once, ascending. */
    method GetDepartments() returns (names: seq<string>)
      ensures forall d :: d in names <==> d in departments
      ensures NoDuplicates(names)
      ensures SortedBy(names, LexLe)
    {
      var unsorted := DepartmentNames();
      names := SortedCopy(unsorted);
      PermutationKeepsDistinct(unsorted, names);
    }

    /** `get_all_employees()`: every department, mapped to its employees
      in ascending order. */
    method GetAllEmployees() returns (all: map<string, seq<string>>)
      ensures all.Keys == departments.Keys
      ensures SortedCopies(all, departments)
    {
      all := map[];
      var names := GetDepartments();
      for i := 0 to |names|
        invariant forall j :: 0 <= j < i ==> names[j] in all
        invariant SortedCopies(all, departments)
      {
        var department := names[i];
        var employees := GetDepartmentEmployees(department);
        if employees.Some? {
          SortedCopiesExtend(all, departments, department, employees.value);
          all := all[department := employees.value];
        }
      }
      forall d | d in departments ensures d in all {
        var j :| 0 <= j < |names| && names[j] == d;
      }
    }
  }

  /** Each department of `all` is one of `departments`, holding the same
      employees in ascending order. */
  ghost predicate SortedCopies(all: map<string, seq<string>>, departments: map<string, seq<string>>) {
    forall d :: d in all ==>
      && d in departments
      && SortedBy(all[d], LexLe)
      && multiset(all[d]) == multiset(departments[d])
  }

  lemma SortedCopiesExtend(all: map<string, seq<string>>, departments: map<string, seq<string>>,
                           department: string, employees: seq<string>)
    requires SortedCopies(all, departments)
    requires department in departments && SortedBy(employees, LexLe)
    requires multiset(employees) == multiset(departments[department])
    ensures SortedCopies(all[department := employees], departments)
  {
  }

  /** A permutation of a list without duplicates has the same elements and
      no duplicates either. */
  lemma PermutationKeepsDistinct(a: seq<string>, b: seq<string>)
    requires NoDuplicates(a) && multiset(a) == multiset(b)
    ensures forall x :: x in b <==> x in a
    ensures NoDuplicates(b)
  {
    forall x ensures x in b <==> x in a {
      assert x in b <==> multiset(b)[x] > 0;
      assert x in a <==> multiset(a)[x] > 0;
    }
    forall p, q | 0 <= p < q < |b| ensures b[p] != b[q] {
      if b[p] == b[q] {
        OccursTwice(b, p, q);
        NoDuplicatesCountsAtMostOne(a);
        assert false;
      }
    }
  }

  /** A command typed at the prompt. */
  datatype Command =
    | AddEmployee(name: string, department: string)
    | ListDepartment(department: string)
    | ListAll
    | RemoveEmployee(name: string, department: string)
    | Help
    | Quit

  /** The words before and after the first word that lower-cases to
      `keyword`, each rejoined with single spaces, provided there is at
      least one word between the command word and `keyword` and at least
      one after it. */
  function Around(words: seq<string>, keyword: string): (r: Option<(string, string)>)
    requires words != []
  {
    match Position(words, w => LowerStr(w) == keyword)
    case None => None
    case Some(p) =>
      if 1 < p < |words| - 1 then Some((Join(words[1..p]), Join(words[p + 1..]))) else None
  }

  /** `parse_command(input)`: the command word is matched case-insensitively;
      "add" and "remove" need a name and a department around "to" and
      "from", "list" and "show" take "all" or a department name, "help",
      "quit" and "exit" take nothing; anything else is not a command. */
  function ParseCommand(input: string): (r: Option<Command>)
    ensures Words(input) == [] ==> r == None
    ensures r.Some? ==> LowerStr(Words(input)[0]) in {"add", "list", "show", "remove", "help", "quit", "exit"}
  {
    var words := Words(input);
    if words == [] then None
    else
      var command := LowerStr(words[0]);
      if command == "add" then
        match Around(words, "to")
        case None => None
        case Some((name, department)) => Some(AddEmployee(name, department))
      else if command == "list" || command == "show" then
        if |words| >= 2 then
          if LowerStr(words[1]) == "all" then Some(ListAll)
          else Some(ListDepartment(Join(words[1..])))
        else None
      else if command == "remove" then
        match Around(words, "from")
        case None => None
        case Some((name, department)) => Some(RemoveEmployee(name, department))
      else if command == "help" then Some(Help)
      else if command == "quit" || command == "exit" then Some(Quit)
      else None
  }

  /** Input made only of whitespace has no words. */
  lemma {:induction false} WordsOfBlank(input: string)
    requires forall k :: 0 <= k < |input| ==> IsWhitespace(input[k])
    ensures Words(input) == []
  {
    if input != [] {
      WordsOfBlank(input[1..]);
    }
  }

  /** Blank input is not a command. */
  lemma BlankIsNoCommand(input: string)
    requires forall k :: 0 <= k < |input| ==> IsWhitespace(input[k])
    ensures ParseCommand(input) == None
  {
    WordsOfBlank(input);
  }

  /** All of `ws` are words. */
  predicate AllWords(ws: seq<string>) {
    forall k :: 0 <= k < |ws| ==> IsWord(ws[k])
  }

  /** A command word, then a non-empty name none of whose words is
      `keyword`, then a word spelling `keyword` in any case, then a
      non-empty department: the name and department are found exactly. */
  lemma AroundFinds(command: string, nameWords: seq<string>, key: string, departmentWords: seq<string>, keyword: string)
    requires LowerStr(command) != keyword && LowerStr(key) == keyword
    requires nameWords != [] && departmentWords != []
    requires forall k :: 0 <= k < |nameWords| ==> LowerStr(nameWords[k]) != keyword
    ensures Around([command] + nameWords + [key] + departmentWords, keyword)
            == Some((Join(nameWords), Join(departmentWords)))
  {
    var words := [command] + nameWords + [key] + departmentWords;
    var p := |nameWords| + 1;
    var isKeyword := w => LowerStr(w) == keyword;
    assert isKeyword(words[p]);
    forall k | 0 <= k < p ensures !isKeyword(words[k]) {
      if k > 0 {
        assert words[k] == nameWords[k - 1];
      }
    }
    PositionIs(words, isKeyword, p);
    assert words[1..p] == nameWords;
    assert words[p + 1..] == departmentWords;
  }

  /** A command word, name words, a keyword and department words are all
      words. */
  lemma AllWordsAround(command: string, nameWords: seq<string>, key: string, departmentWords: seq<string>)
    requires IsWord(command) && IsWord(key) && AllWords(nameWords) && AllWords(departmentWords)
    ensures AllWords([command] + nameWords + [key] + departmentWords)
  {
    var words := [command] + nameWords + [key] + departmentWords;
    forall k | 0 <= k < |words| ensures IsWord(words[k]) {
      if 0 < k <= |nameWords| {
        assert words[k] == nameWords[k - 1];
      } else if k > |nameWords| + 1 {
        assert words[k] == departmentWords[k - |nameWords| - 2];
      }
    }
  }

  /** "Add <name> to <department>", with the keywords in any case and
      multi-word names and departments, parses back to the name and the
      department it was written from. */
  lemma ParseAdd(add: string, nameWords: seq<string>, to: string, departmentWords: seq<string>)
    requires IsWord(add) && LowerStr(add) == "add" && IsWord(to) && LowerStr(to) == "to"
    requires nameWords != [] && AllWords(nameWords) && departmentWords != [] && AllWords(departmentWords)
    requires forall k :: 0 <= k < |nameWords| ==> LowerStr(nameWords[k]) != "to"
    ensures ParseCommand(Join([add] + nameWords + [to] + departmentWords))
            == Some(AddEmployee(Join(nameWords), Join(departmentWords)))
  {
    var words := [add] + nameWords + [to] + departmentWords;
    AllWordsAround(add, nameWords, to, departmentWords);
    WordsOfJoin(words);
    AroundFinds(add, nameWords, to, departmentWords, "to");
    AddCase(Join(words));
  }

  /** The "add" branch of `ParseCommand`. */
  lemma AddCase(input: string)
    requires Words(input) != [] && LowerStr(Words(input)[0]) == "add"
    ensures var around := Around(Words(input), "to");
      around.Some? ==> ParseCommand(input) == Some(AddEmployee(around.value.0, around.value.1))
  {
  }

  /** "Remove <name> from <department>" parses back the same way. */
  lemma ParseRemove(remove: string, nameWords: seq<string>, from: string, departmentWords: seq<string>)
    requires IsWord(remove) && LowerStr(remove) == "remove" && IsWord(from) && LowerStr(from) == "from"
    requires nameWords != [] && AllWords(nameWords) && departmentWords != [] && AllWords(departmentWords)
    requires forall k :: 0 <= k < |nameWords| ==> LowerStr(nameWords[k]) != "from"
    ensures ParseCommand(Join([remove] + nameWords + [from] + departmentWords))
            == Some(RemoveEmployee(Join(nameWords), Join(departmentWords)))
  {
    var words := [remove] + nameWords + [from] + departmentWords;
    AllWordsAround(remove, nameWords, from, departmentWords);
    WordsOfJoin(words);
    AroundFinds(remove, nameWords, from, departmentWords, "from");
    RemoveCase(Join(words));
  }

  /** The "remove" branch of `ParseCommand`. */
  lemma RemoveCase(input: string)
    requires Words(input) != [] && LowerStr(Words(input)[0]) == "remove"
    ensures var around := Around(Words(input), "from");
      around.Some? ==> ParseCommand(input) == Some(RemoveEmployee(around.value.0, around.value.1))
  {
    var command := LowerStr(Words(input)[0]);
    assert command != "add" && command != "list" && command != "show";
  }

  /** "List <department>" or "Show <department>" names the department,
      unless its first word is "all" in some case. */
  lemma ParseList(list: string, departmentWords: seq<string>)
    requires IsWord(list) && LowerStr(list) in {"list", "show"}
    requires departmentWords != [] && AllWords(departmentWords)
    ensures ParseCommand(Join([list] + departmentWords))
            == if LowerStr(departmentWords[0]) == "all" then Some(ListAll)
               else Some(ListDepartment(Join(departmentWords)))
  {
    var words := [list] + departmentWords;
    assert AllWords(words) by {
      forall k | 0 <= k < |words| ensures IsWord(words[k]) {
        if 0 < k {
          assert words[k] == departmentWords[k - 1];
        }
      }
    }
    WordsOfJoin(words);
    assert words[1..] == departmentWords;
  }

  /** "Add" is a command only with a name and a department around its
      first "to": if that "to" comes straight after "Add" or is the last
      word, the input is rejected even when a later "to" would do. */
  lemma AddNeedsWordsAroundTo(input: string)
    requires Words(input) != [] && LowerStr(Words(input)[0]) == "add"
    ensures var words := Words(input);
      ParseCommand(input).Some? <==>
        exists p :: 1 < p < |words| - 1 && LowerStr(words[p]) == "to"
                    && forall q :: 0 <= q < p ==> LowerStr(words[q]) != "to"
  {
    var words := Words(input);
    match Position(words, w => LowerStr(w) == "to")
    case None =>
    case Some(p) =>

  }

  /** "Remove" is a command only with a name and a department around its
      first "from", under the same rule as "Add" and "to". */
  lemma RemoveNeedsWordsAroundFrom(input: string)
    requires Words(input) != [] && LowerStr(Words(input)[0]) == "remove"
    ensures var words := Words(input);
      ParseCommand(input).Some? <==>
        exists p :: 1 < p < |words| - 1 && LowerStr(words[p]) == "from"
                    && forall q :: 0 <= q < p ==> LowerStr(words[q]) != "from"
  {
    var words := Words(input);
    var command := LowerStr(words[0]);
    assert command != "add" && command != "list" && command != "show";
    match Position(words, w => LowerStr(w) == "from")
    case None =>
    case Some(p) =>

  }

  /** The remaining command words: "help", "quit" and "exit" ignore what
      follows them, "list" or "show" alone is rejected, and any other first
      word is not a command. */
  lemma OtherCommandWords(input: string)
    requires Words(input) != []
    ensures var command := LowerStr(Words(input)[0]);
      && (command == "help" ==> ParseCommand(input) == Some(Help))
      && (command == "quit" || command == "exit" ==> ParseCommand(input) == Some(Quit))
      && ((command == "list" || command == "show") && |Words(input)| == 1 ==> ParseCommand(input) == None)
      && (command !in {"add", "list", "show", "remove", "help", "quit", "exit"} ==> ParseCommand(input) == None)
  {
  }
}
