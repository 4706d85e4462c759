/** The printer as the source writes it: a string that grows (src/anolis/provider_sdk/config.cpp:47-141). */
module JsonWriter {
  import opened Base
  import opened Json
  import opened JsonText
  import opened Scalars

  method EscapeJson(text: string) returns (out: string)
    ensures out == Escape(text)
  {
    out := "\"";
    for i := 0 to |text|
      invariant out + EscapeBody(text[i..]) == "\"" + EscapeBody(text)
    {
      hide EscapeChar;
      assert text[i..][0] == text[i] && text[i..][1..] == text[i + 1..];
      out := out + EscapeChar(text[i]);
    }
    assert EscapeBody(text[|text|..]) == "";
    out := out + "\"";
  }

  method WriteJson(fmt: Format, out: Vector<char>, value: Json, depth: nat)
    modifies out
    ensures out.items == old(out.items) + Print(fmt, value, depth)
    decreases value, 1
  {
    hide Escape, ToText, PrintMembers, PrintItems;
    match value
    case Bool(b) => out.Append(if b then "true" else "false");
    case Int(i) => out.Append(ToText(i));
    case Double(v) => out.Append(fmt(v));
    case Str(s) =>
      var text := EscapeJson(s);
      out.Append(text);
    case Obj(es) =>
      if es == [] {
        out.Append("{}");
        return;
      }
      out.Append("{\n");
      WriteMembers(fmt, out, value, depth);
    case Arr(xs) =>
      if xs == [] {
        out.Append("[]");
        return;
      }
      out.Append("[\n");
      WriteItems(fmt, out, value, depth);
  }

  method WriteMembers(fmt: Format, out: Vector<char>, value: Json, depth: nat)
    requires value.Obj? && value.entries != []
    modifies out
    ensures out.items == old(out.items) + PrintMembers(fmt, value, 0, depth)
    decreases value, 0
  {
    hide Print, Indent, Escape, PrintMembers;
    var n := |value.entries|;
    for i := 0 to n
      invariant out.items + (if i < n then PrintMembers(fmt, value, i, depth) else Indent(depth) + "}")
             == old(out.items) + PrintMembers(fmt, value, 0, depth)
    {
      ghost var before := out.items;
      EntrySmaller(value, value.entries[i]);
      out.Append(Indent(depth + 1));
      var key := EscapeJson(value.entries[i].0);
      out.Append(key + ": ");
      WriteJson(fmt, out, value.entries[i].1, depth + 1);
      out.Append(if i + 1 < n then ",\n" else "\n");
      MemberStep(fmt, value, i, depth, before, out.items);
    }
    out.Append(Indent(depth));
    out.PushBack('}');
  }

  lemma MemberStep(fmt: Format, value: Json, i: nat, depth: nat, before: string, after: string)
    requires value.Obj? && i < |value.entries|
    requires after == before + Indent(depth + 1) + (Escape(value.entries[i].0) + ": ") +
      Print(fmt, value.entries[i].1, depth + 1) + (if i + 1 < |value.entries| then ",\n" else "\n")
    ensures after + (if i + 1 < |value.entries| then PrintMembers(fmt, value, i + 1, depth) else Indent(depth) + "}")
      == before + PrintMembers(fmt, value, i, depth)
  {
    hide Print, Indent, Escape;
  }

  method WriteItems(fmt: Format, out: Vector<char>, value: Json, depth: nat)
    requires value.Arr? && value.items != []
    modifies out
    ensures out.items == old(out.items) + PrintItems(fmt, value, 0, depth)
    decreases value, 0
  {
    hide Print, Indent, PrintItems;
    var n := |value.items|;
    for i := 0 to n
      invariant out.items + (if i < n then PrintItems(fmt, value, i, depth) else Indent(depth) + "]")
             == old(out.items) + PrintItems(fmt, value, 0, depth)
    {
      ghost var before := out.items;
      out.Append(Indent(depth + 1));
      WriteJson(fmt, out, value.items[i], depth + 1);
      out.Append(if i + 1 < n then ",\n" else "\n");
      ItemStep(fmt, value, i, depth, before, out.items);
    }
    out.Append(Indent(depth));
    out.PushBack(']');
  }

  lemma ItemStep(fmt: Format, value: Json, i: nat, depth: nat, before: string, after: string)
    requires value.Arr? && i < |value.items|
    requires after == before + Indent(depth + 1) + Print(fmt, value.items[i], depth + 1) +
      (if i + 1 < |value.items| then ",\n" else "\n")
    ensures after + (if i + 1 < |value.items| then PrintItems(fmt, value, i + 1, depth) else Indent(depth) + "]")
      == before + PrintItems(fmt, value, i, depth)
  {
    hide Print, Indent;
  }

  method Serialize(fmt: Format, value: Json) returns (text: string)
    ensures text == Print(fmt, value, 0)
  {
    var out := new Vector<char>();
    WriteJson(fmt, out, value, 0);
    text := out.items;
  }
}
