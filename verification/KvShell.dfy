/** The key-value shell: commands in, a map in memory, and a data file that is rewritten on every set. */
module KvShell {
  import opened Options

  type Store = map<string, string>

  const NUL: char := 0 as char

  // ---------------------------------------------------------------- commands

  datatype Command = Get(key: string) | Set(key: string, value: string)

  datatype Input = Quit | Invalid | Valid(command: Command)

  predicate ContainsIllegalChars(token: string) {
    ' ' in token || '=' in token || ',' in token
  }

  /** The position of the first `c`, or the length when there is none. */
  function IndexOf(s: string, c: char): (i: nat)
    ensures i <= |s| && c !in s[..i] && (i < |s| ==> s[i] == c)
    decreases |s|
  {
    if s == "" || s[0] == c then 0 else
    var i := 1 + IndexOf(s[1..], c);
    assert s[..i] == [s[0]] + s[1..][..i - 1];
    i
  }

  function HandleInput(input: string): Input {
    if input == "quit()" then Quit
    else if "get " <= input then
      var key := input[4..];
      if ContainsIllegalChars(key) then Invalid else Valid(Get(key))
    else if "set " <= input then
      var keyEnd := IndexOf(input, '=');
      assert input[..4] == "set ";
      if keyEnd == |input| then Invalid else
      assert keyEnd >= 4;
      var key, value := input[4..keyEnd], input[keyEnd + 1..];
      if ContainsIllegalChars(key) || ContainsIllegalChars(value) then Invalid else Valid(Set(key, value))
    else Invalid
  }

  /** What the user means, in so many letters. */
  ghost predicate Legal(token: string) {
    forall i :: 0 <= i < |token| ==> token[i] != ' ' && token[i] != '=' && token[i] != ','
  }

  ghost predicate AsksFor(input: string, key: string) {
    input == "get " + key && Legal(key)
  }

  ghost predicate SetsTo(input: string, key: string, value: string) {
    input == "set " + key + "=" + value && Legal(key) && Legal(value)
  }

  /** A get command is exactly the word and a legal key. */
  lemma GetIsRecognised(input: string, key: string)
    ensures HandleInput(input) == Valid(Get(key)) <==> AsksFor(input, key)
  {
    if AsksFor(input, key) {
      assert input[0] == 'g' && input[4..] == key;
    }
    if HandleInput(input) == Valid(Get(key)) {
      assert input == input[..4] + input[4..];
    }
  }

  /** Anything that is no command and does not quit is invalid. */
  lemma QuitIsRecognised(input: string)
    ensures HandleInput(input) == Quit <==> input == "quit()"
    ensures HandleInput(input) == Invalid <==>
            input != "quit()" && (forall k :: !AsksFor(input, k)) && (forall k, v :: !SetsTo(input, k, v))
  {
    var h := HandleInput(input);
    if h.Valid? && h.command.Get? {
      GetIsRecognised(input, h.command.key);
    } else if h.Valid? {
      SetIsRecognised(input, h.command.key, h.command.value);
    }
    forall k ensures AsksFor(input, k) ==> h == Valid(Get(k)) { GetIsRecognised(input, k); }
    forall k, v ensures SetsTo(input, k, v) ==> h == Valid(Set(k, v)) { SetIsRecognised(input, k, v); }
    hide AsksFor, SetsTo;
  }

  /** Legal tokens are accepted as they stand, and nothing else is: a set command is exactly the word, a key, an
      equals sign and a value. */
  lemma SetIsRecognised(input: string, key: string, value: string)
    ensures HandleInput(input) == Valid(Set(key, value)) <==> SetsTo(input, key, value)
  {
    if SetsTo(input, key, value) {
      assert input[0] == 's' && "set " <= input;
      IndexOfFirst("set " + key, '=', value);
      assert input[4..4 + |key|] == key;
    }
    if HandleInput(input) == Valid(Set(key, value)) {
      var e := IndexOf(input, '=');
      assert input == input[..4] + input[4..e] + [input[e]] + input[e + 1..];
    }
  }

  lemma {:induction false} IndexOfFirst(front: string, c: char, back: string)
    requires c !in front
    ensures IndexOf(front + [c] + back, c) == |front|
    decreases |front|
  {
    var s := front + [c] + back;
    if front != "" {
      assert s[0] == front[0] && s[1..] == front[1..] + [c] + back;
      IndexOfFirst(front[1..], c, back);
    }
  }

  // ---------------------------------------------------------------- the data file

  function Line(key: string, value: string): string {
    key + "," + value + "\n"
  }

  /** The file written when the map is enumerated in the given order. */
  function Print(m: Store, order: seq<string>): string
    requires forall k :: k in order ==> k in m
    decreases |order|
  {
    if order == [] then "" else Line(order[0], m[order[0]]) + Print(m, order[1..])
  }

  /** One of the orders a hash map may be enumerated in. */
  ghost predicate Enumerates(order: seq<string>, m: Store) {
    && (forall k :: k in order <==> k in m)
    && forall i, j :: 0 <= i < j < |order| ==> order[i] != order[j]
  }

  const MAX_LINE_LENGTH: nat := 1024

  /** A line is cut at its first zero character, and then split at its first comma; a line without one serves as
      key and as value. */
  function Binding(line: string): (string, string) {
    var s := line[..IndexOf(line, NUL)];
    var comma := IndexOf(s, ',');
    (s[..comma], if comma < |s| then s[comma + 1..] else s)
  }

  /** What a line binds, in so many letters. */
  lemma BindingMeans(front: string, key: string, value: string, back: string)
    requires 0 as char !in front && 0 as char !in key && 0 as char !in value && ',' !in key
    ensures Binding(front + [0 as char] + back) == Binding(front)
    ensures Binding(key + "," + value) == (key, value)
    ensures ',' !in front ==> Binding(front) == (front, front)
  {
    IndexOfFirst(front, 0 as char, back);
    assert (front + [0 as char] + back)[..|front|] == front;
    IndexOfNone(front, 0 as char);
    assert front[..|front|] == front;
    if ',' !in front {
      IndexOfNone(front, ',');
    }
    var line := key + "," + value;
    IndexOfNone(line, 0 as char);
    assert line[..|line|] == line == key + [','] + value;
    IndexOfFirst(key, ',', value);
    assert line[..|key|] == key && line[|key| + 1..] == value;
  }

  /** Reading stops at the end, or at a line that does not fit the buffer. */
  function ParseInto(m: Store, file: string): Store
    decreases |file|
  {
    if file == "" then m else
    var n := IndexOf(file, '\n');
    if n >= MAX_LINE_LENGTH then m else
    var (key, value) := Binding(file[..n]);
    ParseInto(m[key := value], if n < |file| then file[n + 1..] else "")
  }

  /** What a shell started now would hold; an absent file gives an empty store. */
  function Restarted(dataFile: Option<string>): Store {
    match dataFile case None => map[] case Some(file) => ParseInto(map[], file)
  }

  // ---------------------------------------------------------------- what survives a restart

  /** Keys have no comma and no line break, values no line break: what commands and files can bring in. */
  ghost predicate Clean(m: Store) {
    forall k :: k in m ==> ',' !in k && '\n' !in k && '\n' !in m[k]
  }

  /** The bindings that survive: no zero character, and short enough for the line buffer. */
  predicate Storable(key: string, value: string) {
    0 as char !in key && 0 as char !in value && |key| + |value| <= 1022
  }

  ghost predicate AllStorable(m: Store) {
    forall k :: k in m ==> Storable(k, m[k])
  }

  ghost predicate NulFree(m: Store) {
    forall k :: k in m ==> NUL !in k && NUL !in m[k]
  }

  ghost predicate Short(m: Store) {
    forall k :: k in m ==> |k| + |m[k]| <= MAX_LINE_LENGTH - 2
  }

  lemma LineParses(key: string, value: string, rest: string, m: Store)
    requires ',' !in key && '\n' !in key && '\n' !in value && NUL !in key && NUL !in value
    ensures ParseInto(m, Line(key, value) + rest) ==
            if |key| + |value| <= MAX_LINE_LENGTH - 2 then ParseInto(m[key := value], rest) else m
  {
    var line := key + "," + value;
    var file := Line(key, value) + rest;
    assert file == line + ['\n'] + rest;
    IndexOfFirst(line, '\n', rest);
    assert file[..|line|] == line && file[|line| + 1..] == rest;
    assert NUL !in line;
    IndexOfNone(line, NUL);
    assert line[..|line|] == line;
    assert line == key + [','] + value;
    IndexOfFirst(key, ',', value);
    assert line[..|key|] == key && line[|key| + 1..] == value;
  }

  lemma IndexOfNone(s: string, c: char)
    requires c !in s
    ensures IndexOf(s, c) == |s|
  {
  }

  function Listed(m: Store, order: seq<string>): Store
    requires forall k :: k in order ==> k in m
  {
    map k | k in order :: m[k]
  }

  /** Storable bindings are all read back, later lines over earlier ones. */
  lemma {:induction false} PrintedReadsBack(m: Store, order: seq<string>, acc: Store)
    requires Clean(m) && AllStorable(m) && forall k :: k in order ==> k in m
    ensures ParseInto(acc, Print(m, order)) == acc + Listed(m, order)
    decreases |order|
  {
    if order != [] {
      var k, rest := order[0], order[1..];
      LineParses(k, m[k], Print(m, rest), acc);
      PrintedReadsBack(m, rest, acc[k := m[k]]);
      ListedCons(m, order, acc);
    } else {
      assert acc + Listed(m, order) == acc;
    }
  }

  lemma ListedCons(m: Store, order: seq<string>, acc: Store)
    requires order != [] && forall k :: k in order ==> k in m
    ensures acc[order[0] := m[order[0]]] + Listed(m, order[1..]) == acc + Listed(m, order)
  {
    assert order == [order[0]] + order[1..];
  }

  lemma BindingFacts(line: string)
    requires '\n' !in line
    ensures var (key, value) := Binding(line);
            && NUL !in key && NUL !in value && ',' !in key && '\n' !in key && '\n' !in value
  {
    var s := line[..IndexOf(line, NUL)];
    var (key, value) := Binding(line);
    assert forall c :: c in key || c in value ==> c in s;
  }

  lemma OneMoreBinding(m: Store, line: string)
    requires Clean(m) && NulFree(m) && '\n' !in line
    ensures var (key, value) := Binding(line); Clean(m[key := value]) && NulFree(m[key := value])
  {
    BindingFacts(line);
    hide Binding;
  }

  /** Whatever a file holds, the store read from it is clean, and no zero character is ever read. */
  lemma {:induction false} ParsedIsClean(m: Store, file: string)
    requires Clean(m) && NulFree(m)
    ensures Clean(ParseInto(m, file)) && NulFree(ParseInto(m, file))
    decreases |file|
  {
    hide Binding, Clean, NulFree, IndexOf;
    var n := IndexOf(file, '\n');
    if file != "" && n < MAX_LINE_LENGTH {
      OneMoreBinding(m, file[..n]);
      var (key, value) := Binding(file[..n]);
      ParsedIsClean(m[key := value], if n < |file| then file[n + 1..] else "");
    }
  }

  /** Without zero characters, what is read back of a printed store is short. */
  lemma {:induction false} PrintedReadsShort(m: Store, order: seq<string>, acc: Store)
    requires Clean(m) && NulFree(m) && Short(acc) && forall k :: k in order ==> k in m
    ensures Short(ParseInto(acc, Print(m, order)))
    decreases |order|
  {
    if order != [] {
      var k, rest := order[0], order[1..];
      LineParses(k, m[k], Print(m, rest), acc);
      hide ParseInto;
      if |k| + |m[k]| <= MAX_LINE_LENGTH - 2 {
        PrintedReadsShort(m, rest, acc[k := m[k]]);
      }
    }
  }

  /** The printer and the parser agree on a store exactly when all its bindings are storable, whatever order the
      map was enumerated in. */
  lemma PrintParseIff(m: Store, order: seq<string>)
    requires Clean(m) && Enumerates(order, m)
    ensures Restarted(Some(Print(m, order))) == m <==> AllStorable(m)
  {
    hide ParseInto, Print;
    var r := ParseInto(map[], Print(m, order));
    ParsedIsClean(map[], Print(m, order));
    if AllStorable(m) {
      PrintedReadsBack(m, order, map[]);
      assert map[] + Listed(m, order) == m;
    }
    if r == m {
      PrintedReadsShort(m, order, map[]);
    }
  }

  // ---------------------------------------------------------------- the running shell

  class Shell {
    var kvStore: Store
    var dataFile: Option<string>

    /** Starting up: what `initializeFromDataStore` reads. */
    constructor (dataFile: Option<string>)
      ensures this.dataFile == dataFile && kvStore == Restarted(dataFile)
    {
      this.dataFile := dataFile;
      kvStore := map[];
      new;
      InitializeFromDataStore();
    }

    method InitializeFromDataStore()
      requires kvStore == map[]
      modifies `kvStore
      ensures kvStore == Restarted(dataFile)
    {
      if dataFile.Some? {
        var rest := dataFile.value;
        while rest != ""
          invariant ParseInto(kvStore, rest) == Restarted(dataFile)
          decreases |rest|
        {
          var n := IndexOf(rest, '\n');
          if n >= MAX_LINE_LENGTH {
            return;
          }
          var (key, value) := Binding(rest[..n]);
          kvStore := kvStore[key := value];
          rest := if n < |rest| then rest[n + 1..] else "";
        }
      }
    }

    /** Set rewrites the whole file, in the order the map happens to be enumerated in. */
    method ProcessCommand(command: Command) returns (returnCode: bool, returnValue: Option<string>)
      modifies this
      ensures command.Get? ==>
                && unchanged(this) && (returnCode <==> command.key in kvStore)
                && returnValue == if returnCode then Some(kvStore[command.key]) else None
      ensures command.Set? ==>
                && kvStore == old(kvStore)[command.key := command.value] && returnCode && returnValue == None
                && exists order :: Enumerates(order, kvStore) && dataFile == Some(Print(kvStore, order))
    {
      returnCode, returnValue := true, None;
      match command {
        case Get(key) =>
          if key in kvStore {
            returnValue := Some(kvStore[key]);
          } else {
            returnCode := false;
          }
        case Set(key, value) =>
          kvStore := kvStore[key := value];
          var text, remaining := "", kvStore.Keys;
          ghost var order := [];
          while remaining != {}
            invariant forall k :: k in order <==> k in kvStore && k !in remaining
            invariant remaining <= kvStore.Keys && forall i, j :: 0 <= i < j < |order| ==> order[i] != order[j]
            invariant text == Print(kvStore, order) && kvStore == old(kvStore)[key := value]
          {
            var k :| k in remaining;
            PrintOneMore(kvStore, order, k);
            text := text + Line(k, kvStore[k]);
            order := order + [k];
            remaining := remaining - {k};
          }
          assert Enumerates(order, kvStore);
          dataFile := Some(text);
      }
    }

    /** The loop over the lines of the standard input, up to the one that quits. */
    method MainLoop(inputs: seq<string>) returns (used: nat, replies: seq<Reply>, ghost moments: seq<Moment>)
      requires kvStore == Restarted(dataFile)
      modifies this
      ensures used <= |inputs| && (used < |inputs| ==> inputs[used] == "quit()")
      ensures IsSession(moments, inputs[..used], replies) && moments[used] == Moment(kvStore, dataFile)
      ensures moments[0] == Moment(old(kvStore), old(dataFile))
    {
      used, replies, moments := 0, [], [Moment(kvStore, dataFile)];
      while used < |inputs|
        invariant used <= |inputs| && IsSession(moments, inputs[..used], replies)
        invariant moments[used] == Moment(kvStore, dataFile) && moments[0] == Moment(old(kvStore), old(dataFile))
      {
        var input := HandleInput(inputs[used]);
        QuitIsRecognised(inputs[used]);
        if input.Quit? {
          return;
        }
        var reply := Usage;
        if input.Valid? {
          var status, value := ProcessCommand(input.command);
          reply := Silent;
          if input.command.Get? {
            reply := if status then Shown(value.value) else NotFound(input.command.key);
          }
        }
        ghost var now := Moment(kvStore, dataFile);
        assert Moves(moments[used], inputs[used], now, reply);
        SessionGrows(moments, inputs, replies, used, now, reply);
        moments, replies := moments + [now], replies + [reply];
        used := used + 1;
      }
    }
  }

  lemma {:induction false} PrintOneMore(m: Store, order: seq<string>, k: string)
    requires k in m && forall x :: x in order ==> x in m
    ensures forall x :: x in order + [k] ==> x in m
    ensures Print(m, order + [k]) == Print(m, order) + Line(k, m[k])
    decreases |order|
  {
    if order == [] {
      assert [] + [k] == [k] && [k][1..] == [];
      assert Print(m, [k]) == Line(k, m[k]) + Print(m, []);
    } else {
      assert (order + [k])[1..] == order[1..] + [k];
      PrintOneMore(m, order[1..], k);
    }
  }

  // ---------------------------------------------------------------- whole sessions

  datatype Moment = Moment(store: Store, dataFile: Option<string>)

  /** What is printed for a line of input: a value, that there is none, the usage text, or nothing but the prompt. */
  datatype Reply = Shown(value: string) | NotFound(key: string) | Usage | Silent

  /** What one input does to the store and the file, and what is printed for it. */
  ghost predicate Moves(before: Moment, input: string, after: Moment, reply: Reply) {
    match HandleInput(input)
    case Quit => false
    case Invalid => after == before && reply == Usage
    case Valid(Get(k)) => after == before && reply == if k in before.store then Shown(before.store[k]) else NotFound(k)
    case Valid(Set(k, v)) =>
      && after.store == before.store[k := v] && reply == Silent
      && exists order :: Enumerates(order, after.store) && after.dataFile == Some(Print(after.store, order))
  }

  /** A session: the shell starts from some file and takes the inputs one by one. */
  ghost predicate IsSession(s: seq<Moment>, inputs: seq<string>, replies: seq<Reply>) {
    && |s| == |inputs| + 1 && |replies| == |inputs|
    && s[0].store == Restarted(s[0].dataFile)
    && forall i :: 0 <= i < |inputs| ==> Moves(s[i], inputs[i], s[i + 1], replies[i])
  }

  lemma SessionGrows(s: seq<Moment>, inputs: seq<string>, replies: seq<Reply>, k: nat, next: Moment, reply: Reply)
    requires k < |inputs| && IsSession(s, inputs[..k], replies) && Moves(s[k], inputs[k], next, reply)
    ensures IsSession(s + [next], inputs[..k + 1], replies + [reply])
  {
    hide Moves;
    var t, more, said := s + [next], inputs[..k + 1], replies + [reply];
    forall i | 0 <= i < |more| ensures Moves(t[i], more[i], t[i + 1], said[i]) {
      if i < k {
        assert inputs[..k][i] == more[i] && t[i] == s[i] && t[i + 1] == s[i + 1] && said[i] == replies[i];
      }
    }
  }

  // ---------------------------------------------------------------- what a get is answered

  ghost predicate NotSet(inputs: seq<string>, start: nat, end: nat, key: string)
    requires end <= |inputs|
  {
    forall i, v :: start <= i < end ==> !SetsTo(inputs[i], key, v)
  }

  /** An input that does not set the key leaves what is bound to it. */
  lemma OthersStay(before: Moment, input: string, after: Moment, reply: Reply, key: string)
    requires Moves(before, input, after, reply) && forall v :: !SetsTo(input, key, v)
    ensures key in after.store <==> key in before.store
    ensures key in before.store ==> after.store[key] == before.store[key]
  {
    var h := HandleInput(input);
    if h.Valid? && h.command.Set? {
      SetIsRecognised(input, h.command.key, h.command.value);
    }
    hide HandleInput, SetsTo;
  }

  lemma {:induction false} StaysBound(s: seq<Moment>, inputs: seq<string>, replies: seq<Reply>, start: nat, end: nat,
                                      key: string)
    requires IsSession(s, inputs, replies) && start <= end <= |inputs| && NotSet(inputs, start, end, key)
    ensures key in s[end].store <==> key in s[start].store
    ensures key in s[start].store ==> s[end].store[key] == s[start].store[key]
    decreases end
  {
    hide Moves, SetsTo, Restarted;
    if start < end {
      StaysBound(s, inputs, replies, start, end - 1, key);
      OthersStay(s[end - 1], inputs[end - 1], s[end], replies[end - 1], key);
    }
  }

  /** In every session, a get of a key that was set before is answered with the value of the last such set. */
  lemma GetAnswersLastSet(s: seq<Moment>, inputs: seq<string>, replies: seq<Reply>, i: nat, j: nat,
                          key: string, value: string)
    requires IsSession(s, inputs, replies) && i < j < |inputs|
    requires SetsTo(inputs[i], key, value) && NotSet(inputs, i + 1, j, key) && AsksFor(inputs[j], key)
    ensures replies[j] == Shown(value)
  {
    SetIsRecognised(inputs[i], key, value);
    GetIsRecognised(inputs[j], key);
    StaysBound(s, inputs, replies, i + 1, j, key);
    hide HandleInput, Restarted, SetsTo, AsksFor;
    assert Moves(s[i], inputs[i], s[i + 1], replies[i]) && Moves(s[j], inputs[j], s[j + 1], replies[j]);
  }

  /** A get of a key that was not set in the session is answered with what the data file said at the start. */
  lemma GetAnswersFile(s: seq<Moment>, inputs: seq<string>, replies: seq<Reply>, j: nat, key: string)
    requires IsSession(s, inputs, replies) && j < |inputs| && NotSet(inputs, 0, j, key) && AsksFor(inputs[j], key)
    ensures var found := Restarted(s[0].dataFile);
            replies[j] == if key in found then Shown(found[key]) else NotFound(key)
  {
    GetIsRecognised(inputs[j], key);
    StaysBound(s, inputs, replies, 0, j, key);
    hide HandleInput, Restarted, SetsTo, AsksFor;
    assert Moves(s[j], inputs[j], s[j + 1], replies[j]);
  }

  // ---------------------------------------------------------------- what a restart would give

  predicate SomeSet(inputs: seq<string>) {
    exists i :: 0 <= i < |inputs| && HandleInput(inputs[i]).Valid? && HandleInput(inputs[i]).command.Set?
  }

  lemma InputIsClean(input: string)
    requires '\n' !in input
    ensures HandleInput(input).Valid? && HandleInput(input).command.Set? ==>
              var c := HandleInput(input).command;
              ',' !in c.key && '\n' !in c.key && '\n' !in c.value
  {
  }

  /** Restart consistency: from any file whatever, after every command of every session, a restart would give
      exactly the store in memory if no set has been carried out, and otherwise exactly when every binding in
      memory is storable. */
  lemma {:induction false} RestartConsistency(s: seq<Moment>, inputs: seq<string>, replies: seq<Reply>, k: nat)
    requires IsSession(s, inputs, replies) && k <= |inputs|
    requires forall i :: 0 <= i < |inputs| ==> '\n' !in inputs[i]
    ensures Clean(s[k].store)
    ensures if SomeSet(inputs[..k]) then Restarted(s[k].dataFile) == s[k].store <==> AllStorable(s[k].store)
            else Restarted(s[k].dataFile) == s[k].store
    decreases k
  {
    if k == 0 {
      match s[0].dataFile {
        case None =>
        case Some(file) => ParsedIsClean(map[], file);
      }
    } else {
      RestartConsistency(s, inputs, replies, k - 1);
      InputIsClean(inputs[k - 1]);
      var h := HandleInput(inputs[k - 1]);
      assert Moves(s[k - 1], inputs[k - 1], s[k], replies[k - 1]);
      assert inputs[..k] == inputs[..k - 1] + [inputs[k - 1]];
      if h.Valid? && h.command.Set? {
        assert inputs[..k][k - 1] == inputs[k - 1];
        var order :| Enumerates(order, s[k].store) && s[k].dataFile == Some(Print(s[k].store, order));
        PrintParseIff(s[k].store, order);
      } else {
        assert SomeSet(inputs[..k]) <==> SomeSet(inputs[..k - 1]) by {
          if SomeSet(inputs[..k - 1]) {
            var i :| 0 <= i < k - 1 && var h := HandleInput(inputs[..k - 1][i]); h.Valid? && h.command.Set?;
            assert inputs[..k][i] == inputs[i];
          }
        }
      }
    }
  }
}
