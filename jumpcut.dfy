/** src/main.rs: reserved verbs, fragment search, the split of the command
    line into `--key=value` arguments and name fragments, the confirmation
    gate, and the add / copy / modify / remove operations on the alias
    directory. The directory is a map from alias name to file text; the
    prompts are answers given in advance; printed lines are logs. */
module Jumpcut {
  import opened Text
  import opened Int8
  import opened Lexicographic
  import opened Aliases

  // ---------------------------------------------------------------------------
  // Reserved verbs

  const ReservedKeywords: seq<string> :=
    ["is_exec_action", "list", "add", "addwd", "addpath", "rm", "desc", "confirm", "cp"]

  /** `is_reserved_keyword`: the nine verbs of the command line. */
  function IsReservedKeyword(action: string): (r: bool)
    ensures r <==> action == "is_exec_action" || action == "list" || action == "add"
                   || action == "addwd" || action == "addpath" || action == "rm"
                   || action == "desc" || action == "confirm" || action == "cp"
  {
    action in ReservedKeywords
  }

  // ---------------------------------------------------------------------------
  // Fragment search

  /** `name` contains every fragment, case-sensitively, anywhere. */
  predicate MatchesAll(name: string, parts: seq<string>) {
    forall i :: 0 <= i < |parts| ==> Contains(name, parts[i])
  }

  /** `find_aliases`: the stored names containing every fragment, sorted. */
  function FindAliases(names: set<string>, parts: seq<string>): (r: seq<string>)
    ensures forall n :: n in r <==> n in names && MatchesAll(n, parts)
    ensures Ascending(r)
  {
    SortedList(set n | n in names && MatchesAll(n, parts))
  }

  /** The search result is the one ascending listing of the matching names. */
  lemma FindAliasesUnique(names: set<string>, parts: seq<string>, listing: seq<string>)
    requires Ascending(listing)
    requires forall n :: n in listing <==> n in names && MatchesAll(n, parts)
    ensures FindAliases(names, parts) == listing
  {
    AscendingUnique(FindAliases(names, parts), listing);
  }

  /** With no fragment every name matches. */
  lemma FindAliasesNoParts(names: set<string>)
    ensures FindAliases(names, []) == SortedList(names)
  {
    AscendingUnique(FindAliases(names, []), SortedList(names));
  }

  lemma ContainsItself(s: string)
    ensures Contains(s, s)
  {
    assert OccursAt(s, s, 0);
  }

  /** A name without the first character of a fragment does not contain it. */
  lemma MissingFirstChar(s: string, part: string)
    requires part != [] && part[0] !in s
    ensures !Contains(s, part)
  {
    forall k | 0 <= k <= |s| - |part| ensures !OccursAt(s, part, k) {
      assert s[k..k + |part|][0] == s[k];
    }
  }

  /** Names "rename", "clean", "remove" searched with "re" and "na": only
      "rename" holds both fragments. */
  lemma FindAliasesExample()
    ensures FindAliases({"rename", "clean", "remove"}, ["re", "na"]) == ["rename"]
  {
    var names := {"rename", "clean", "remove"};
    var parts := ["re", "na"];
    assert OccursAt("rename", "re", 0);
    assert OccursAt("rename", "na", 2);
    assert MatchesAll("rename", parts);
    assert parts[0] == "re" && parts[1] == "na";
    MissingFirstChar("clean", "re");
    assert !MatchesAll("clean", parts);
    MissingFirstChar("remove", "na");
    assert !MatchesAll("remove", parts);
    FindAliasesUnique(names, parts, ["rename"]);
  }

  // ---------------------------------------------------------------------------
  // The command line: the regular expression --([A-Za-z0-9_]+)=(.+)

  datatype Arg = Arg(key: string, value: string)

  /** The argument text for a key and a value. */
  function ArgToken(key: string, value: string): string {
    "--" + key + "=" + value
  }

  /** A match of the argument pattern starting at position `i`: "--", a
      non-empty run of name characters, "=", then every character up to
      the end of the line (at least one). */
  function ArgMatchAt(s: string, i: nat): (r: Option<Arg>)
    requires i <= |s|
    ensures r.Some? ==> IsName(r.value.key) && r.value.key != []
    ensures r.Some? ==> r.value.value != [] && '\n' !in r.value.value
    ensures r.Some? ==> OccursAt(s, ArgToken(r.value.key, r.value.value), i)
    ensures r.Some? ==> var end := i + 3 + |r.value.key| + |r.value.value|;
                        end == |s| || s[end] == '\n'
  {
    if i + 2 <= |s| && s[i] == '-' && s[i + 1] == '-' then
      var j := NameRunEnd(s, i + 2);
      if i + 2 < j && j + 1 < |s| && s[j] == '=' && s[j + 1] != '\n' then
        var rest := s[j + 1..];
        var n := IndexOf(rest, '\n');
        ArgTokenAt(s, i, j);
        Some(Arg(s[i + 2..j], rest[..n]))
      else None
    else None
  }

  /** The text matched from "--" at `i` through '=' at `j` and on to the
      first newline is an argument token whose value ends there. */
  lemma ArgTokenAt(s: string, i: nat, j: nat)
    requires i + 2 < j && j + 1 < |s| && s[i] == '-' && s[i + 1] == '-'
    requires NameRunEnd(s, i + 2) == j && s[j] == '=' && s[j + 1] != '\n'
    ensures var key, rest := s[i + 2..j], s[j + 1..];
            var value := rest[..IndexOf(rest, '\n')];
            var end := i + 3 + |key| + |value|;
            IsName(key) && key != [] && value != [] && '\n' !in value
            && OccursAt(s, ArgToken(key, value), i) && (end == |s| || s[end] == '\n')
  {
    RunIsName(s, i + 2, j);
    var n := ValueRun(s, j + 1);
    var value := s[j + 1..][..n];
    TokenSpan(s, i, j, value);
  }

  lemma RunIsName(s: string, a: nat, b: nat)
    requires a <= b <= |s| && forall k :: a <= k < b ==> IsNameChar(s[k])
    ensures IsName(s[a..b])
  {
    var t := s[a..b];
    forall k | 0 <= k < |t| ensures IsNameChar(t[k]) {
      assert t[k] == s[a + k];
    }
  }

  /** The value runs from `m` up to the first newline. */
  lemma ValueRun(s: string, m: nat) returns (n: nat)
    requires m < |s| && s[m] != '\n'
    ensures n == IndexOf(s[m..], '\n') && m + n <= |s|
    ensures s[m..][..n] == s[m..m + n] && s[m..m + n] != [] && '\n' !in s[m..m + n]
    ensures m + n == |s| || s[m + n] == '\n'
  {
    var rest := s[m..];
    n := IndexOf(rest, '\n');
    assert rest[0] == s[m];
    var v := s[m..m + n];
    forall k | 0 <= k < |v| ensures v[k] != '\n' {
      assert v[k] == rest[k];
    }
    if n < |rest| { assert s[m + n] == rest[n]; }
  }

  lemma TokenSpan(s: string, i: nat, j: nat, value: string)
    requires i + 2 <= j && j + 1 + |value| <= |s| && s[i] == '-' && s[i + 1] == '-' && s[j] == '='
    requires value == s[j + 1..j + 1 + |value|]
    ensures OccursAt(s, ArgToken(s[i + 2..j], value), i)
  {
    var m := j + 1 + |value|;
    var t := ArgToken(s[i + 2..j], value);
    assert |t| == m - i;
    forall k | 0 <= k < m - i ensures s[i + k] == t[k] {
      if k < 2 {
      } else if k < j - i {
        assert t[k] == s[i + 2..j][k - 2];
      } else if k == j - i {
      } else {
        assert t[k] == value[k - (j - i) - 1];
      }
    }
    assert s[i..m] == t;
  }

  /** The leftmost match at position `i` or later. */
  function ArgMatchFrom(s: string, i: nat): Option<Arg>
    requires i <= |s|
    decreases |s| - i
  {
    if i == |s| then None
    else
      match ArgMatchAt(s, i)
      case Some(a) => Some(a)
      case None => ArgMatchFrom(s, i + 1)
  }

  /** `Regex::captures` on one command-line token. The search is not
      anchored: the match may start anywhere in the token. */
  function ArgMatch(token: string): Option<Arg> {
    ArgMatchFrom(token, 0)
  }

  /** Conversely, a `--key=value` token at position `i` whose value runs
      up to a newline or the end of the text is the match found there. */
  lemma ArgMatchAtFinds(s: string, i: nat, key: string, value: string)
    requires IsName(key) && key != [] && value != [] && '\n' !in value
    requires OccursAt(s, ArgToken(key, value), i)
    requires var end := i + 3 + |key| + |value|; end == |s| || s[end] == '\n'
    ensures ArgMatchAt(s, i) == Some(Arg(key, value))
  {
    var j := i + 2 + |key|;
    TokenParts(s, i, key, value);
    NameRunEndUnique(s, i + 2, j);
    var rest := s[j + 1..];
    assert rest[..|value|] == value;
    IndexOfIs(rest, '\n', |value|);
    assert s[j + 1] == value[0];
    ArgMatchAtGuard(s, i, j);
  }

  lemma ArgMatchAtGuard(s: string, i: nat, j: nat)
    requires i + 2 < j && j + 1 < |s| && s[i] == '-' && s[i + 1] == '-'
    requires NameRunEnd(s, i + 2) == j && s[j] == '=' && s[j + 1] != '\n'
    ensures ArgMatchAt(s, i) == Some(Arg(s[i + 2..j], s[j + 1..][..IndexOf(s[j + 1..], '\n')]))
  {
  }

  /** The pieces of an argument token found in the text. */
  lemma TokenParts(s: string, i: nat, key: string, value: string)
    requires OccursAt(s, ArgToken(key, value), i)
    ensures var j := i + 2 + |key|;
            s[i] == '-' && s[i + 1] == '-' && s[j] == '=' && s[i + 2..j] == key && s[j + 1..j + 1 + |value|] == value
  {
    var t := ArgToken(key, value);
    var j := i + 2 + |key|;
    forall k | 0 <= k < |t| ensures s[i + k] == t[k] {
      assert s[i..i + |t|][k] == s[i + k];
    }
    assert t[0] == '-' && t[1] == '-' && t[|key| + 2] == '=';
    forall k | 0 <= k < |key| ensures s[i + 2..j][k] == key[k] {
      assert t[2 + k] == key[k];
    }
    forall k | 0 <= k < |value| ensures s[j + 1..j + 1 + |value|][k] == value[k] {
      assert t[|key| + 3 + k] == value[k];
    }
  }

  /** A well-formed `--key=value` token gives back its key and value. */
  lemma ArgTokenRoundTrip(key: string, value: string)
    requires IsName(key) && key != []
    requires value != [] && '\n' !in value
    ensures ArgMatch(ArgToken(key, value)) == Some(Arg(key, value))
  {
    var s := ArgToken(key, value);
    assert OccursAt(s, s, 0) by { assert s[0..|s|] == s; }
    ArgMatchAtFinds(s, 0, key, value);
  }

  /** The search is not anchored and the value stops at a newline:
      "x--k=v" followed by a newline and more text is the argument k = v. */
  lemma ArgMatchExample(s: string)
    requires s == "x--k=v\nw"
    ensures ArgMatch(s) == Some(Arg("k", "v"))
  {
    assert ArgMatchAt(s, 0) == None;
    assert OccursAt(s, ArgToken("k", "v"), 1) by { assert s[1..6] == ArgToken("k", "v"); }
    assert s[6] == '\n';
    ArgMatchAtFinds(s, 1, "k", "v");
    assert ArgMatchFrom(s, 1) == Some(Arg("k", "v"));
    assert ArgMatchFrom(s, 0) == ArgMatchFrom(s, 1);
  }

  /** A token without '=' is never an argument. */
  lemma {:induction false} NoEqualsNoArg(s: string, i: nat)
    requires i <= |s| && '=' !in s
    ensures ArgMatchFrom(s, i) == None
    decreases |s| - i
  {
    if i < |s| {
      NoEqualsNoArg(s, i + 1);
    }
  }

  /** The tokens split into the argument map and the name fragments. */
  datatype Partitioned = Partitioned(args: map<string, string>, parts: seq<string>)

  /** The loop of `main`'s last arm, token by token: an argument token sets
      its key (a later one overwrites an earlier one), any other token is
      kept as a fragment. */
  function Partition(tokens: seq<string>): Partitioned
    decreases |tokens|
  {
    if tokens == [] then Partitioned(map[], [])
    else
      var p := Partition(tokens[..|tokens| - 1]);
      var t := tokens[|tokens| - 1];
      match ArgMatch(t)
      case Some(a) => p.(args := p.args[a.key := a.value])
      case None => p.(parts := p.parts + [t])
  }

  /** Partitioning two runs of tokens: the fragments are concatenated in
      order and the maps are merged with the second run winning. */
  lemma {:induction false} PartitionAppend(a: seq<string>, b: seq<string>)
    ensures Partition(a + b)
            == Partitioned(Partition(a).args + Partition(b).args, Partition(a).parts + Partition(b).parts)
    decreases |b|
  {
    if b == [] {
      assert a + b == a;
      assert Partition(a).args + map[] == Partition(a).args;
      assert Partition(a).parts + [] == Partition(a).parts;
    } else {
      var b' := b[..|b| - 1];
      var t := b[|b| - 1];
      assert (a + b)[..|a + b| - 1] == a + b';
      assert (a + b)[|a + b| - 1] == t;
      PartitionAppend(a, b');
      var pa, pb' := Partition(a), Partition(b');
      match ArgMatch(t)
      case Some(arg) =>
        assert (pa.args + pb'.args)[arg.key := arg.value] == pa.args + pb'.args[arg.key := arg.value];
      case None =>
        assert pa.parts + pb'.parts + [t] == pa.parts + (pb'.parts + [t]);
    }
  }

  /** The keys of the map are exactly the keys of the argument tokens. */
  lemma {:induction false} PartitionKeys(tokens: seq<string>, k: string)
    ensures k in Partition(tokens).args <==>
              exists i :: 0 <= i < |tokens| && ArgMatch(tokens[i]).Some? && ArgMatch(tokens[i]).value.key == k
    decreases |tokens|
  {
    if tokens != [] {
      var front := tokens[..|tokens| - 1];
      PartitionKeys(front, k);
      forall i | 0 <= i < |front| ensures front[i] == tokens[i] { }
    }
  }

  /** The value of a key is that of its last argument token. */
  lemma {:induction false} PartitionLastWins(tokens: seq<string>, i: nat, k: string, v: string)
    requires i < |tokens| && ArgMatch(tokens[i]) == Some(Arg(k, v))
    requires forall j :: i < j < |tokens| && ArgMatch(tokens[j]).Some? ==> ArgMatch(tokens[j]).value.key != k
    ensures k in Partition(tokens).args && Partition(tokens).args[k] == v
    decreases |tokens|
  {
    var front := tokens[..|tokens| - 1];
    if i < |tokens| - 1 {
      forall j | i < j < |front| && ArgMatch(front[j]).Some?
        ensures ArgMatch(front[j]).value.key != k
      {
        assert front[j] == tokens[j];
      }
      assert front[i] == tokens[i];
      PartitionLastWins(front, i, k, v);
    }
  }

  /** Tokens of which none is an argument are all fragments, in order. */
  lemma {:induction false} PartitionWithoutArguments(tokens: seq<string>)
    requires forall i :: 0 <= i < |tokens| ==> ArgMatch(tokens[i]).None?
    ensures Partition(tokens) == Partitioned(map[], tokens)
    decreases |tokens|
  {
    if tokens != [] {
      var front := tokens[..|tokens| - 1];
      PartitionWithoutArguments(front);
      assert front + [tokens[|tokens| - 1]] == tokens;
    }
  }

  /** `main`'s last arm: each token (the alias name included) either fills
      the argument map or is pushed to the fragments. */
  method PartitionArgs(tokens: seq<string>) returns (args: map<string, string>, parts: seq<string>)
    ensures Partitioned(args, parts) == Partition(tokens)
  {
    args, parts := map[], [];
    var i := 0;
    while i < |tokens|
      invariant 0 <= i <= |tokens|
      invariant Partitioned(args, parts) == Partition(tokens[..i])
      decreases |tokens| - i
    {
      var t := tokens[i];
      assert tokens[..i + 1][..i] == tokens[..i];
      match ArgMatch(t) {
        case Some(a) => args := args[a.key := a.value];
        case None => parts := parts + [t];
      }
      i := i + 1;
    }
    assert tokens[..|tokens|] == tokens;
  }

  // ---------------------------------------------------------------------------
  // Outcomes, messages and prompts

  /** What `error` writes to the error stream, one per call. */
  datatype Message =
    | NoMatchingAliases
    | UnexpectedInput
    | ReservedName(name: string)
    | NoAliasToCopy(name: string)
    | NoAliasToModify(name: string)
    | NoAliasToRemove(name: string)

  /** The `io::Error`s the operations return. */
  datatype Failure = ReservedKeyword | AliasDoesNotExist | EmptyOrInvalidFile

  datatype Status = Ok | Err(failure: Failure)

  /** The answers the user gives to the prompts of one run: the yes/no
      question, the typed confirmation, the choice among several matches
      (`None` when cancelled), and the values typed for missing parameters,
      in order. */
  datatype Prompts = Prompts(confirm: bool, typed: string, selection: Option<nat>, answers: seq<string>)

  /** The lines an execution prints and the messages it reports. */
  datatype Effect = Effect(out: seq<string>, errors: seq<Message>)

  /** The store after an operation, its result and its messages. */
  datatype Outcome = Outcome(files: map<string, string>, status: Status, errors: seq<Message>)

  /** The line `exec_nothing` prints: a single space, which the shell
      wrapper runs as an empty command. */
  const Nothing: string := " "

  function PathOf(root: string, name: string): string {
    root + "/" + name
  }

  /** `Alias::read` of a stored alias file. */
  function ReadStored(files: map<string, string>, root: string, name: string): (r: ReadResult)
    requires name in files
    ensures r.Parsed? ==> r.alias.name == name && IsInMainStorage(r.alias, root)
  {
    var r := Read(name, Lines(files[name]), PathOf(root, name));
    assert r.Parsed? ==> StartsWith(r.alias.storagePath, root + "/");
    r
  }

  // ---------------------------------------------------------------------------
  // Executing: the confirmation gate and the resolution of a name

  /** The gate lets the expansion through: level 0 always, level 1 when the
      question is answered yes, level 2 when the name is typed exactly. */
  predicate GatePasses(a: Alias, prompts: Prompts) {
    a.confirm == 0 || (a.confirm == 1 && prompts.confirm) || (a.confirm == 2 && prompts.typed == a.name)
  }

  /** `exec_alias` once the alias is read: what the gate prints. */
  function GateEffect(a: Alias, args: map<string, string>, prompts: Prompts, canonicalCwd: string): (e: Effect)
    ensures GatePasses(a, prompts) ==> e == Effect([Expand(a, args, prompts.answers, canonicalCwd).text], [])
    ensures !GatePasses(a, prompts) && a.confirm == 1 ==> e == Effect([Nothing], [])
    ensures !GatePasses(a, prompts) && a.confirm == 2 ==> e == Effect([Nothing], [UnexpectedInput])
    ensures !(0 <= a.confirm <= 2) ==> e == Effect([], [])
  {
    var line := Expand(a, args, prompts.answers, canonicalCwd).text;
    match a.confirm
    case 0 => Effect([line], [])
    case 1 => if prompts.confirm then Effect([line], []) else Effect([Nothing], [])
    case 2 => if prompts.typed == a.name then Effect([line], []) else Effect([Nothing], [UnexpectedInput])
    case _ => Effect([], [])
  }

  /** `exec_alias`: an alias file that cannot be read makes the call fail,
      which the caller discards, so nothing is printed. */
  function ExecEffect(files: map<string, string>, root: string, name: string,
                      args: map<string, string>, prompts: Prompts, canonicalCwd: string): (e: Effect)
    requires name in files
    ensures ReadStored(files, root, name).EmptyOrInvalid? ==> e == Effect([], [])
    ensures |e.out| <= 1
  {
    match ReadStored(files, root, name)
    case EmptyOrInvalid => Effect([], [])
    case Parsed(a) => GateEffect(a, args, prompts, canonicalCwd)
  }

  datatype Resolution = Run(name: string) | NoMatch | Cancelled

  /** Which alias `find_and_exec_alias` runs: a single fragment that is a
      stored name is that alias; otherwise the search decides, and several
      matches are offered for selection. */
  function Resolve(names: set<string>, parts: seq<string>, selection: Option<nat>): (r: Resolution)
    ensures r.Run? ==> r.name in names && MatchesAll(r.name, parts)
    ensures r.NoMatch? <==> forall n :: n in names ==> !MatchesAll(n, parts)
    ensures |parts| == 1 && parts[0] in names ==> r == Run(parts[0])
    ensures r.Cancelled? ==> |FindAliases(names, parts)| >= 2
    ensures !(|parts| == 1 && parts[0] in names) && |FindAliases(names, parts)| == 1
            ==> r == Run(FindAliases(names, parts)[0])
    ensures !(|parts| == 1 && parts[0] in names) && |FindAliases(names, parts)| >= 2
            ==> r == (if selection.Some? && selection.value < |FindAliases(names, parts)|
                      then Run(FindAliases(names, parts)[selection.value]) else Cancelled)
  {
    if |parts| == 1 && parts[0] in names then
      ContainsItself(parts[0]);
      Run(parts[0])
    else
      var matches := FindAliases(names, parts);
      if |matches| == 0 then
        assert forall n :: n in names && MatchesAll(n, parts) ==> n in matches;
        NoMatch
      else if |matches| == 1 then
        Run(matches[0])
      else
        assert matches[0] != matches[1] by { assert LexLt(matches[0], matches[1]); }
        match selection
        case Some(i) => if i < |matches| then Run(matches[i]) else Cancelled
        case None => Cancelled
  }

  /** A name that is the only match is run without a prompt, whatever the
      selection would have been. */
  lemma ResolveSingleMatch(names: set<string>, parts: seq<string>, n: string, selection: Option<nat>)
    requires n in names && MatchesAll(n, parts)
    requires forall m :: m in names && MatchesAll(m, parts) ==> m == n
    ensures Resolve(names, parts, selection) == Run(n)
  {
    if |parts| == 1 && parts[0] in names {
      ContainsItself(parts[0]);
      assert MatchesAll(parts[0], parts);
    } else {
      FindAliasesUnique(names, parts, [n]);
    }
  }

  /** The selection is only consulted when the search has several
      matches and no single fragment names an alias exactly. */
  lemma ResolveAsksOnlyWhenAmbiguous(names: set<string>, parts: seq<string>, s1: Option<nat>, s2: Option<nat>)
    requires (|parts| == 1 && parts[0] in names) || |FindAliases(names, parts)| < 2
    ensures Resolve(names, parts, s1) == Resolve(names, parts, s2)
  {
  }

  /** `find_and_exec_alias`: what resolving and executing prints. */
  function FindAndExecEffect(files: map<string, string>, root: string, parts: seq<string>,
                             args: map<string, string>, prompts: Prompts, canonicalCwd: string): Effect
  {
    match Resolve(files.Keys, parts, prompts.selection)
    case NoMatch => Effect([Nothing], [NoMatchingAliases])
    case Cancelled => Effect([], [])
    case Run(name) => ExecEffect(files, root, name, args, prompts, canonicalCwd)
  }

  /** The protocol with the shell wrapper: at most one line is printed, and
      exactly one unless the selection was cancelled, the alias file could
      not be read, or the alias has a level outside 0, 1, 2. */
  lemma AtMostOneLine(files: map<string, string>, root: string, parts: seq<string>,
                      args: map<string, string>, prompts: Prompts, canonicalCwd: string)
    ensures var e := FindAndExecEffect(files, root, parts, args, prompts, canonicalCwd);
            var r := Resolve(files.Keys, parts, prompts.selection);
            |e.out| <= 1 &&
            (|e.out| == 1 <==>
               r.NoMatch? ||
               (r.Run? && ReadStored(files, root, r.name).Parsed?
                       && 0 <= ReadStored(files, root, r.name).alias.confirm <= 2))
  {
    var r := Resolve(files.Keys, parts, prompts.selection);
    if r.Run? {
      match ReadStored(files, root, r.name)
      case EmptyOrInvalid =>
      case Parsed(a) =>
        if !(0 <= a.confirm <= 2) {
          assert !GatePasses(a, prompts);
        }
    }
  }

  /** When the gate stops an alias, its command is not expanded: the only
      line is the blank one, whatever the command. */
  lemma DeclinedPrintsBlank(a: Alias, command: string, args: map<string, string>, prompts: Prompts,
                            canonicalCwd: string)
    requires a.confirm == 1 && !prompts.confirm
    ensures GateEffect(a, args, prompts, canonicalCwd).out == [Nothing]
    ensures GateEffect(a.(command := command), args, prompts, canonicalCwd) == GateEffect(a, args, prompts, canonicalCwd)
  {
  }

  // ---------------------------------------------------------------------------
  // Changes to the store, as functions of the directory

  /** `add_alias`: a reserved name is refused; an existing alias is
      replaced only if the overwrite question is answered yes; the new
      alias has an empty description and level 0. */
  function AddOutcome(files: map<string, string>, root: string, name: string, cmd: string,
                      overwrite: bool): (o: Outcome)
    ensures IsReservedKeyword(name) ==> o == Outcome(files, Err(ReservedKeyword), [ReservedName(name)])
    ensures !IsReservedKeyword(name) ==> o.status == Ok && o.errors == []
    ensures name in files && !overwrite ==> o.files == files
    ensures forall n :: n != name ==> (n in o.files <==> n in files) && (n in files ==> o.files[n] == files[n])
    ensures !IsReservedKeyword(name) && (name !in files || overwrite) && Storable(cmd) ==>
              name in o.files &&
              ReadStored(o.files, root, name) == Parsed(Alias(name, cmd, "", 0, PathOf(root, name)))
  {
    if IsReservedKeyword(name) then Outcome(files, Err(ReservedKeyword), [ReservedName(name)])
    else if name in files && !overwrite then Outcome(files, Ok, [])
    else
      var a := Alias(name, cmd, "", 0, PathOf(root, name));
      assert Storable(cmd) ==> Read(name, Lines(Write(a)), PathOf(root, name)) == Parsed(a) by {
        if Storable(cmd) {
          ReadWriteRoundTrip(a);
        }
      }
      Outcome(files[name := Write(a)], Ok, [])
  }

  /** The two changes `modify_alias` is called with. */
  datatype Change = Describe(description: string) | SetConfirm(level: i8)

  function Apply(change: Change, a: Alias): Alias {
    match change
    case Describe(d) => UpdateDescription(a, d)
    case SetConfirm(level) => UpdateConfirm(a, level)
  }

  /** `modify_alias`: a missing alias is reported and the call succeeds; an
      unreadable file fails; otherwise the changed record is written back
      to the same file. */
  function ModifyOutcome(files: map<string, string>, root: string, name: string, change: Change): (o: Outcome)
    ensures name !in files ==> o == Outcome(files, Ok, [NoAliasToModify(name)])
    ensures name in files && ReadStored(files, root, name).EmptyOrInvalid? ==>
              o == Outcome(files, Err(EmptyOrInvalidFile), [])
    ensures forall n :: n != name ==> (n in o.files <==> n in files) && (n in files ==> o.files[n] == files[n])
    ensures name in files && ReadStored(files, root, name).Parsed? ==>
              var a' := Apply(change, ReadStored(files, root, name).alias);
              o.status == Ok && o.errors == [] && name in o.files &&
              (Storable(a'.command) && Storable(a'.description) ==> ReadStored(o.files, root, name) == Parsed(a'))
  {
    if name !in files then Outcome(files, Ok, [NoAliasToModify(name)])
    else
      match ReadStored(files, root, name)
      case EmptyOrInvalid => Outcome(files, Err(EmptyOrInvalidFile), [])
      case Parsed(a) =>
        var a' := Apply(change, a);
        assert Storable(a'.command) && Storable(a'.description) ==>
                 Read(name, Lines(Write(a')), PathOf(root, name)) == Parsed(a') by {
          if Storable(a'.command) && Storable(a'.description) {
            ReadWriteRoundTrip(a');
          }
        }
        Outcome(files[name := Write(a')], Ok, [])
  }

  /** `remove_alias`: the file of an existing alias is deleted; a missing
      one is reported and the call succeeds. */
  function RemoveOutcome(files: map<string, string>, name: string): (o: Outcome)
    ensures name !in files ==> o == Outcome(files, Ok, [NoAliasToRemove(name)])
    ensures name in files ==> o.status == Ok && o.errors == []
    ensures name !in o.files
    ensures forall n :: n != name ==> (n in o.files <==> n in files) && (n in files ==> o.files[n] == files[n])
  {
    if name in files then Outcome(files - {name}, Ok, []) else Outcome(files, Ok, [NoAliasToRemove(name)])
  }

  /** The command a copy starts from: the source's command partially
      instantiated, with no argument known in advance. */
  function CopiedCommand(source: Alias, answers: seq<string>): string {
    Fill(source.command, map[], answers, false).text
  }

  /** `copy_alias`: add the target with the partially instantiated command,
      then give it the source's description and level; the outcomes of
      those three steps are discarded. */
  function CopyOutcome(files: map<string, string>, root: string, source: string, target: string,
                       answers: seq<string>, overwrite: bool): Outcome
  {
    if source !in files then Outcome(files, Err(AliasDoesNotExist), [NoAliasToCopy(source)])
    else
      match ReadStored(files, root, source)
      case EmptyOrInvalid => Outcome(files, Err(EmptyOrInvalidFile), [])
      case Parsed(a) => CopyRead(files, root, a, target, answers, overwrite)
  }

  /** The copy once the source is read: add, describe, set the level. */
  function CopyRead(files: map<string, string>, root: string, a: Alias, target: string,
                    answers: seq<string>, overwrite: bool): Outcome
  {
    var added := AddOutcome(files, root, target, CopiedCommand(a, answers), overwrite);
    var described := ModifyOutcome(added.files, root, target, Describe(a.description));
    var confirmed := ModifyOutcome(described.files, root, target, SetConfirm(a.confirm));
    Outcome(confirmed.files, Ok, added.errors + described.errors + confirmed.errors)
  }

  /** A copy changes no alias other than the target, and a copy whose
      source is missing or unreadable changes nothing. */
  lemma CopyTouchesOnlyTarget(files: map<string, string>, root: string, source: string, target: string,
                              answers: seq<string>, overwrite: bool)
    ensures var o := CopyOutcome(files, root, source, target, answers, overwrite);
            forall n :: n != target ==> (n in o.files <==> n in files) && (n in files ==> o.files[n] == files[n])
    ensures source !in files ==> CopyOutcome(files, root, source, target, answers, overwrite)
                                 == Outcome(files, Err(AliasDoesNotExist), [NoAliasToCopy(source)])
    ensures source in files && ReadStored(files, root, source).EmptyOrInvalid? ==>
              CopyOutcome(files, root, source, target, answers, overwrite).files == files
  {
  }

  /** The description the target ends up with. */
  function CopiedDescription(source: Alias): string {
    UpdateDescription(source, source.description).description
  }

  /** A copy to a new (or overwritten) target reads back as the copied
      command with the source's description and level. */
  lemma CopyCreatesTarget(files: map<string, string>, root: string, source: string, target: string,
                          answers: seq<string>, overwrite: bool)
    requires source in files && ReadStored(files, root, source).Parsed?
    requires !IsReservedKeyword(target) && (target !in files || overwrite)
    requires var a := ReadStored(files, root, source).alias;
             Storable(CopiedCommand(a, answers)) && Storable(a.description)
    ensures var a := ReadStored(files, root, source).alias;
            var o := CopyOutcome(files, root, source, target, answers, overwrite);
            o.status == Ok && o.errors == [] && target in o.files &&
            ReadStored(o.files, root, target)
              == Parsed(Alias(target, CopiedCommand(a, answers), CopiedDescription(a), a.confirm, PathOf(root, target)))
  {
    var a := ReadStored(files, root, source).alias;
    var cmd := CopiedCommand(a, answers);
    var added := AddOutcome(files, root, target, cmd, overwrite);
    assert ReadStored(added.files, root, target) == Parsed(Alias(target, cmd, "", 0, PathOf(root, target)));
    var described := ModifyOutcome(added.files, root, target, Describe(a.description));
    assert ReadStored(described.files, root, target)
           == Parsed(Alias(target, cmd, CopiedDescription(a), 0, PathOf(root, target)));
  }

  /** Declining to overwrite an existing target keeps its command, but its
      description and level are still replaced by the source's. */
  lemma CopyDeclinedKeepsCommand(files: map<string, string>, root: string, source: string, target: string,
                                 answers: seq<string>)
    requires source in files && ReadStored(files, root, source).Parsed?
    requires target in files && ReadStored(files, root, target).Parsed?
    requires var a := ReadStored(files, root, source).alias;
             var t := ReadStored(files, root, target).alias;
             Storable(t.command) && Storable(a.description)
    ensures var a := ReadStored(files, root, source).alias;
            var t := ReadStored(files, root, target).alias;
            var o := CopyOutcome(files, root, source, target, answers, false);
            target in o.files &&
            ReadStored(o.files, root, target)
              == Parsed(Alias(target, t.command, CopiedDescription(a), a.confirm, PathOf(root, target)))
  {
    var a := ReadStored(files, root, source).alias;
    var t := ReadStored(files, root, target).alias;
    var added := AddOutcome(files, root, target, CopiedCommand(a, answers), false);
    assert added.files == files;
    var described := ModifyOutcome(added.files, root, target, Describe(a.description));
    assert ReadStored(described.files, root, target)
           == Parsed(Alias(target, t.command, CopiedDescription(a), t.confirm, PathOf(root, target)));
  }

  // ---------------------------------------------------------------------------
  // The alias directory

  /** The alias directory, with what the run has printed so far: `stdout`
      holds the lines the shell wrapper executes, `stderr` the messages. */
  class Store {
    const root: string
    var files: map<string, string>
    var stdout: seq<string>
    var stderr: seq<Message>

    constructor (root: string, files: map<string, string>)
      ensures this.root == root && this.files == files
      ensures stdout == [] && stderr == []
    {
      this.root := root;
      this.files := files;
      stdout := [];
      stderr := [];
    }

    /** `exec_nothing`. */
    method ExecNothing()
      modifies this
      ensures files == old(files) && stderr == old(stderr)
      ensures stdout == old(stdout) + [Nothing]
    {
      stdout := stdout + [Nothing];
    }

    /** `exec_alias`: read the alias, pass it through its confirmation
      gate, and print the expansion or the blank line. */
    method ExecAlias(name: string, args: map<string, string>, prompts: Prompts, canonicalCwd: string)
      requires name in files
      modifies this
      ensures files == old(files)
      ensures var e := ExecEffect(old(files), root, name, args, prompts, canonicalCwd);
              stdout == old(stdout) + e.out && stderr == old(stderr) + e.errors
    {
      var r := Read(name, Lines(files[name]), PathOf(root, name));
      match r
      case EmptyOrInvalid =>
      case Parsed(a) =>
        if a.confirm == 0 {
          stdout := Execute(a, args, prompts.answers, canonicalCwd, stdout);
        } else if a.confirm == 1 {
          if prompts.confirm {
            stdout := Execute(a, args, prompts.answers, canonicalCwd, stdout);
          } else {
            ExecNothing();
          }
        } else if a.confirm == 2 {
          if prompts.typed == name {
            stdout := Execute(a, args, prompts.answers, canonicalCwd, stdout);
          } else {
            stderr := stderr + [UnexpectedInput];
            ExecNothing();
          }
        }
    }

    /** `find_and_exec_alias`. */
    method FindAndExecAlias(parts: seq<string>, args: map<string, string>, prompts: Prompts,
                            canonicalCwd: string)
      modifies this
      ensures files == old(files)
      ensures var e := FindAndExecEffect(old(files), root, parts, args, prompts, canonicalCwd);
              stdout == old(stdout) + e.out && stderr == old(stderr) + e.errors
    {
      ghost var resolved := Resolve(files.Keys, parts, prompts.selection);
      if |parts| == 1 && parts[0] in files {
        assert resolved == Run(parts[0]);
        ExecAlias(parts[0], args, prompts, canonicalCwd);
        return;
      }
      var matches := FindAliases(files.Keys, parts);
      if |matches| == 0 {
        assert resolved == NoMatch;
        stderr := stderr + [NoMatchingAliases];
        ExecNothing();
      } else if |matches| == 1 {
        assert resolved == Run(matches[0]);
        ExecAlias(matches[0], args, prompts, canonicalCwd);
      } else {
        match prompts.selection {
          case Some(i) =>
            if i < |matches| {
              assert resolved == Run(matches[i]);
              ExecAlias(matches[i], args, prompts, canonicalCwd);
            } else {
              assert resolved == Cancelled;
            }
          case None =>
            assert resolved == Cancelled;
        }
      }
    }

    /** `main`'s last arm: split the tokens after the program name, then
      resolve and execute; the result of the execution is discarded. */
    method ExecCommandLine(tokens: seq<string>, prompts: Prompts, canonicalCwd: string)
      modifies this
      ensures files == old(files)
      ensures var p := Partition(tokens);
              var e := FindAndExecEffect(old(files), root, p.parts, p.args, prompts, canonicalCwd);
              stdout == old(stdout) + e.out && stderr == old(stderr) + e.errors
    {
      var args, parts := PartitionArgs(tokens);
      FindAndExecAlias(parts, args, prompts, canonicalCwd);
    }

    /** `add_alias`. */
    method AddAlias(name: string, cmd: string, overwrite: bool) returns (status: Status)
      modifies this
      ensures var o := AddOutcome(old(files), root, name, cmd, overwrite);
              files == o.files && status == o.status && stderr == old(stderr) + o.errors
      ensures stdout == old(stdout)
    {
      if IsReservedKeyword(name) {
        stderr := stderr + [ReservedName(name)];
        return Err(ReservedKeyword);
      }
      var a := Alias(name, cmd, "", 0, PathOf(root, name));
      if name in files && !overwrite {
        return Ok;
      }
      files := files[name := Write(a)];
      status := Ok;
    }

    /** `modify_alias`. */
    method ModifyAlias(name: string, change: Change) returns (status: Status)
      modifies this
      ensures var o := ModifyOutcome(old(files), root, name, change);
              files == o.files && status == o.status && stderr == old(stderr) + o.errors
      ensures stdout == old(stdout)
    {
      if name !in files {
        stderr := stderr + [NoAliasToModify(name)];
        return Ok;
      }
      var r := Read(name, Lines(files[name]), PathOf(root, name));
      match r
      case EmptyOrInvalid =>
        status := Err(EmptyOrInvalidFile);
      case Parsed(a) =>
        files := files[name := Write(Apply(change, a))];
        status := Ok;
    }

    /** `add_description`. */
    method AddDescription(name: string, description: string) returns (status: Status)
      modifies this
      ensures var o := ModifyOutcome(old(files), root, name, Describe(description));
              files == o.files && status == o.status && stderr == old(stderr) + o.errors
      ensures stdout == old(stdout)
    {
      status := ModifyAlias(name, Describe(description));
    }

    /** `set_confirmation`. */
    method SetConfirmation(name: string, level: i8) returns (status: Status)
      modifies this
      ensures var o := ModifyOutcome(old(files), root, name, SetConfirm(level));
              files == o.files && status == o.status && stderr == old(stderr) + o.errors
      ensures stdout == old(stdout)
    {
      status := ModifyAlias(name, SetConfirm(level));
    }

    /** The `confirm` verb: the level is parsed as an i8, and text that is
      not one sets level 0. */
    method ConfirmVerb(name: string, levelText: string) returns (status: Status)
      modifies this
      ensures var o := ModifyOutcome(old(files), root, name, SetConfirm(ParseI8OrZero(levelText)));
              files == o.files && status == o.status && stderr == old(stderr) + o.errors
      ensures stdout == old(stdout)
    {
      status := SetConfirmation(name, ParseI8OrZero(levelText));
    }

    /** `remove_alias`. */
    method RemoveAlias(name: string) returns (status: Status)
      modifies this
      ensures var o := RemoveOutcome(old(files), name);
              files == o.files && status == o.status && stderr == old(stderr) + o.errors
      ensures stdout == old(stdout)
    {
      if name in files {
        files := files - {name};
        status := Ok;
      } else {
        stderr := stderr + [NoAliasToRemove(name)];
        status := Ok;
      }
    }

    /** `copy_alias`: `answers` are the values typed for the source's
      missing parameters (empty keeps a parameter), `overwrite` the answer
      to the overwrite question. */
    method CopyAlias(source: string, target: string, answers: seq<string>, overwrite: bool)
      returns (status: Status)
      modifies this
      ensures var o := CopyOutcome(old(files), root, source, target, answers, overwrite);
              files == o.files && status == o.status && stderr == old(stderr) + o.errors
      ensures stdout == old(stdout)
    {
      if source !in files {
        stderr := stderr + [NoAliasToCopy(source)];
        return Err(AliasDoesNotExist);
      }
      var r := Read(source, Lines(files[source]), PathOf(root, source));
      match r
      case EmptyOrInvalid =>
        status := Err(EmptyOrInvalidFile);
      case Parsed(a) =>
        CopyReadAlias(a, target, answers, overwrite);
        status := Ok;
    }

    /** The steps of `copy_alias` after the source is read. */
    method CopyReadAlias(a: Alias, target: string, answers: seq<string>, overwrite: bool)
      modifies this
      ensures var o := CopyRead(old(files), root, a, target, answers, overwrite);
              files == o.files && stderr == old(stderr) + o.errors
      ensures stdout == old(stdout)
    {
      var copied, _ := FillInParameters(a.command, map[], answers, false);
      var _ := AddAlias(target, copied, overwrite);
      var _ := AddDescription(target, a.description);
      var _ := SetConfirmation(target, a.confirm);
    }
  }
}
