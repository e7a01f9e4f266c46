/**
 * The text command interface of a service (skynet_command): a fixed table
 * of command names searched in order, and the two commands whose effect
 * stays inside the modelled state, SETENV's argument split and ENDLESS.
 */
module Command {
  import opened Wrappers
  import opened Context

  /** The functions of cmd_funcs, one per entry. */
  datatype Cmd =
    | Timeout | Reg | Query | Name | Now | Exit | Kill | Launch | GetEnv
    | SetEnv | StartTime | Endless | Abort | Monitor | MqLen | LogOn | LogOff

  /** cmd_funcs, in table order. */
  const CommandTable: seq<(string, Cmd)> := [
    ("TIMEOUT", Timeout), ("REG", Reg), ("QUERY", Query), ("NAME", Name),
    ("NOW", Now), ("EXIT", Exit), ("KILL", Kill), ("LAUNCH", Launch),
    ("GETENV", GetEnv), ("SETENV", SetEnv), ("STARTTIME", StartTime),
    ("ENDLESS", Endless), ("ABORT", Abort), ("MONITOR", Monitor),
    ("MQLEN", MqLen), ("LOGON", LogOn), ("LOGOFF", LogOff)
  ]

  /** The search of skynet_command: the function of the first entry whose name equals `cmd`, or None. */
  function Lookup(table: seq<(string, Cmd)>, cmd: string): Option<Cmd>
  {
    if |table| == 0 then None
    else if table[0].0 == cmd then Some(table[0].1)
    else Lookup(table[1..], cmd)
  }

  /** The search finds a command exactly when some entry carries the name, and then it is the first such entry. */
  lemma {:induction false} LookupFirst(table: seq<(string, Cmd)>, cmd: string)
    ensures Lookup(table, cmd).None? <==> forall i :: 0 <= i < |table| ==> table[i].0 != cmd
    ensures Lookup(table, cmd).Some? ==>
      exists i :: 0 <= i < |table| && table[i] == (cmd, Lookup(table, cmd).value) &&
        forall j :: 0 <= j < i ==> table[j].0 != cmd
  {
    if |table| > 0 && table[0].0 != cmd {
      LookupFirst(table[1..], cmd);
      if Lookup(table, cmd).Some? {
        var i :| 0 <= i < |table| - 1 && table[1..][i] == (cmd, Lookup(table, cmd).value) &&
          forall j :: 0 <= j < i ==> table[1..][j].0 != cmd;
        assert table[i + 1] == (cmd, Lookup(table, cmd).value);
        forall j | 0 <= j < i + 1
          ensures table[j].0 != cmd
        {
          if j > 0 {
            assert table[j] == table[1..][j - 1];
          }
        }
      }
    } else if |table| > 0 {
      assert table[0] == (cmd, Lookup(table, cmd).value);
    }
  }

  /** When the names are distinct, every entry's name finds that entry's function. */
  lemma {:induction false} LookupDistinct(table: seq<(string, Cmd)>, i: int)
    requires 0 <= i < |table|
    requires forall j, k :: 0 <= j < k < |table| ==> table[j].0 != table[k].0
    ensures Lookup(table, table[i].0) == Some(table[i].1)
  {
    if i > 0 {
      assert table[0].0 != table[i].0;
      assert table[1..][i - 1] == table[i];
      LookupDistinct(table[1..], i - 1);
    }
  }

  /** Every command of the table can be reached by its name, and each name selects its own function. */
  lemma CommandTableReachable(i: int)
    requires 0 <= i < |CommandTable|
    ensures Lookup(CommandTable, CommandTable[i].0) == Some(CommandTable[i].1)
  {
    assert forall j, k :: 0 <= j < k < |CommandTable| ==> CommandTable[j].0 != CommandTable[k].0;
    LookupDistinct(CommandTable, i);
  }

  /**
   * cmd_setenv's split of its parameter: the key is everything before the
   * first space and the value everything after it; without a space nothing
   * is set and the command returns None. The parameter is a C string, so
   * it holds no NUL.
   */
  method SetEnvSplit(param: string) returns (r: Option<(string, string)>)
    requires '\0' !in param
    ensures r.None? <==> ' ' !in param
    ensures r.Some? ==> param == r.value.0 + [' '] + r.value.1 && ' ' !in r.value.0
  {
    var key := "";
    var i := 0;
    while i < |param| && param[i] != ' '
      invariant 0 <= i <= |param| && key == param[..i] && ' ' !in key
    {
      key := key + [param[i]];
      i := i + 1;
    }
    if i == |param| {
      assert param == key;
      return None;
    }
    assert param == key + [' '] + param[i + 1..];
    return Some((key, param[i + 1..]));
  }

  /** cmd_endless: reports "1" and clears the flag when the service was marked endless, otherwise None. */
  method CmdEndless(ctx: Ctx) returns (r: Option<string>)
    modifies ctx`endless
    ensures old(ctx.endless) ==> r == Some("1")
    ensures !old(ctx.endless) ==> r == None
    ensures !ctx.endless
  {
    if ctx.endless {
      ctx.endless := false;
      return Some("1");
    }
    return None;
  }

  /** The endless mark is reported once: a second ENDLESS right after the first returns None. */
  method EndlessReportedOnce(ctx: Ctx) returns (first: Option<string>, second: Option<string>)
    modifies ctx`endless
    ensures first == (if old(ctx.endless) then Some("1") else None) && second == None
  {
    first := CmdEndless(ctx);
    second := CmdEndless(ctx);
  }
}
