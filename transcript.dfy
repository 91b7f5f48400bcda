/** The generated code that accompanies each edit: plain text a user can paste
    into a pandas session to repeat the edit. */
module Transcript {
  import opened Frames

  /** `x` occurs in `s` starting at position `i`. */
  ghost predicate InfixAt(x: string, s: string, i: int)
  {
    0 <= i <= |s| - |x| && s[i..i + |x|] == x
  }

  /** `x` occurs somewhere inside `s`. */
  ghost predicate Infix(x: string, s: string)
  {
    exists i :: InfixAt(x, s, i)
  }

  lemma InfixOfConcat(a: string, x: string, b: string)
    ensures Infix(x, a + x + b)
  {
    var s := a + x + b;
    assert InfixAt(x, s, |a|);
  }

  /** An occurrence inside `m` is an occurrence inside `a + m + b`. */
  lemma InfixWiden(x: string, a: string, m: string, b: string)
    requires Infix(x, m)
    ensures Infix(x, a + m + b)
  {
    var i :| InfixAt(x, m, i);
    assert (a + m + b)[|a| + i..|a| + i + |x|] == m[i..i + |x|];
    assert InfixAt(x, a + m + b, |a| + i);
  }

  function DigitChar(d: nat): (c: char)
    requires d < 10
    ensures '0' <= c <= '9'
  {
    "0123456789"[d]
  }

  /** Decimal digits of `n`, most significant first. */
  function Digits(n: nat): (s: string)
    ensures |s| > 0
    ensures forall i :: 0 <= i < |s| ==> '0' <= s[i] <= '9'
    ensures n < 10 <==> |s| == 1
  {
    if n < 10 then [DigitChar(n)] else Digits(n / 10) + [DigitChar(n % 10)]
  }

  /** How Python's `str()` shows a fill value inside an f-string. */
  function Render(c: Cell): string
  {
    match c
    case Missing => "nan"
    case Num(n) => if n < 0 then "-" + Digits(-n) else Digits(n)
    case Text(s) => s
  }

  /** The code emitted for both propagating fills. */
  function ForwardFillCode(column: string): (code: string)
    ensures Infix(column, code)
  {
    InfixOfConcat("df['", column, "'] = df['" + column + "'].ffill()");
    "df['" + column + ("'] = df['" + column + "'].ffill()")
  }

  /** The code emitted for a fill with one scalar: a comment for a custom value,
      otherwise an assignment naming the method, then the `fillna` call. */
  function ScalarFillCode(column: string, how: string, value: Cell): (code: string)
    ensures Infix(column, code)
    ensures Infix(Render(value), code)
  {
    var head :=
      if how == "Custom" then "# Using custom value = " + Render(value) + " to fill missing values\n"
      else how + " = df['" + column + "']." + how + "()\n";
    var code := head + "df.fillna('{" + column + (":" + Render(value) + "}', inplace=True)");
    InfixOfConcat(head + "df.fillna('{", column, ":" + Render(value) + "}', inplace=True)");
    assert code == head + "df.fillna('{" + column + ":" + Render(value) + "}', inplace=True)";
    InfixOfConcat(head + "df.fillna('{" + column + ":", Render(value), "}', inplace=True)");
    code
  }

  /** The code emitted for a rename: the `rename` call and an alternative in a comment. */
  function RenameCode(oldName: string, newName: string): (code: string)
    ensures Infix(oldName, code) && Infix(newName, code)
  {
    var tail := "'}, inplace=True)\n# or use the following code instead\n"
      + "# df.columns = df.columns.str.replace('" + oldName + "', '" + newName + "')";
    var code := "df.rename(columns={'" + oldName + ("': '" + newName + tail);
    InfixOfConcat("df.rename(columns={'", oldName, "': '" + newName + tail);
    assert code == "df.rename(columns={'" + oldName + "': '" + newName + tail;
    InfixOfConcat("df.rename(columns={'" + oldName + "': '", newName, tail);
    code
  }

  /** Python's `str()` of a list of labels: `['a', 'b']`. */
  function ListRepr(names: seq<string>): string
  {
    "[" + QuotedJoin(names) + "]"
  }

  function QuotedJoin(names: seq<string>): string
  {
    if names == [] then ""
    else if |names| == 1 then "'" + names[0] + "'"
    else "'" + names[0] + "', " + QuotedJoin(names[1..])
  }

  /** The code emitted for a drop names every dropped label. */
  function DropCode(names: seq<string>): (code: string)
  {
    "df.drop(columns=" + ListRepr(names) + ", inplace=True)"
  }

  lemma {:induction false} QuotedJoinNamesAll(names: seq<string>, k: nat)
    requires k < |names|
    ensures Infix("'" + names[k] + "'", QuotedJoin(names))
    decreases |names|
  {
    var q := "'" + names[k] + "'";
    if |names| == 1 {
      assert QuotedJoin(names) == "" + q + "";
      InfixOfConcat("", q, "");
    } else if k == 0 {
      assert QuotedJoin(names) == "" + q + (", " + QuotedJoin(names[1..]));
      InfixOfConcat("", q, ", " + QuotedJoin(names[1..]));
    } else {
      QuotedJoinNamesAll(names[1..], k - 1);
      var pre := "'" + names[0] + "', ";
      assert QuotedJoin(names) == pre + QuotedJoin(names[1..]) + "";
      InfixWiden(q, pre, QuotedJoin(names[1..]), "");
    }
  }

  /** Every dropped label appears, quoted, in the drop transcript. */
  lemma DropCodeNamesEvery(names: seq<string>, k: nat)
    requires k < |names|
    ensures Infix("'" + names[k] + "'", DropCode(names))
  {
    QuotedJoinNamesAll(names, k);
    assert DropCode(names) == "df.drop(columns=[" + QuotedJoin(names) + "], inplace=True)";
    InfixWiden("'" + names[k] + "'", "df.drop(columns=[", QuotedJoin(names), "], inplace=True)");
  }
}
