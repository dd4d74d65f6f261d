/** How the loader picks the destination table of a data file: the part of
    the file name before the first underscore, with `user` read as `users`. */
module TableNames {

  /** The text before the first `_` of `name`, or all of `name` when it has
      no `_`. */
  function Prefix(name: string): (p: string)
    ensures p <= name
    ensures '_' !in p
    ensures p == name || name[|p|] == '_'
  {
    if |name| == 0 || name[0] == '_' then "" else [name[0]] + Prefix(name[1..])
  }

  /** The destination table for a data file name. */
  function TableName(fileName: string): (t: string)
    ensures '_' !in t
    ensures t == "users" || t == Prefix(fileName)
  {
    var table := Prefix(fileName);
    if table == "user" then "users" else table
  }

  /** A name `p_rest` whose first part has no underscore goes to table `p`,
      except that `user` goes to `users`; a name without any underscore is
      its own table name, with the same exception. */
  lemma {:induction false} TableNameOfFile(p: string, rest: string)
    requires '_' !in p
    ensures TableName(p + "_" + rest) == if p == "user" then "users" else p
    ensures TableName(p) == if p == "user" then "users" else p
  {
    PrefixUpToUnderscore(p, "_" + rest);
    assert p + "_" + rest == p + ("_" + rest);
    PrefixUpToUnderscore(p, "");
    assert p + "" == p;
  }

  /** The prefix of `p + tail` is `p` when `p` has no underscore and `tail`
      is empty or starts with one. */
  lemma {:induction false} PrefixUpToUnderscore(p: string, tail: string)
    requires '_' !in p
    requires tail == "" || tail[0] == '_'
    ensures Prefix(p + tail) == p
    decreases |p|
  {
    if |p| == 0 {
      assert p + tail == tail;
    } else {
      assert (p + tail)[0] == p[0];
      assert (p + tail)[1..] == p[1..] + tail;
      PrefixUpToUnderscore(p[1..], tail);
    }
  }
}
