/**
 The schema object (src/anolis/provider_sdk/config.cpp:1100-1124): construction runs
 the tree checks, and its setters accept only UTF-8. A schema that exists satisfies
 what the no-drift and document theorems assume.
 */
module ConfigSchema {
  import opened Base
  import opened ConfigSpec
  import opened ConfigCheck
  import opened EmittedDocument
  import ConfigBuilder
  import ConfigChecker
  import Scalars
  import Utf8

  class Schema {
    const lib: Scalars.Library
    var spec: SchemaSpec

    ghost predicate Valid()
      reads this
    {
      SchemaBuilt(lib, spec)
    }

    constructor (lib: Scalars.Library, root: ObjectSpec)
      requires ObjectBuilt(root) && ObjectOk(lib, root, false)
      ensures Valid() && this.lib == lib && spec == SchemaSpec(root, None, None, None)
    {
      hide ObjectBuilt, ObjectOk;
      this.lib, spec := lib, SchemaSpec(root, None, None, None);
    }

    method Id(value: string) returns (ok: bool)
      requires Valid()
      modifies this
      ensures Valid() && (ok <==> Utf8.IsValid(value))
      ensures spec == if ok then old(spec).(id := Some(value)) else old(spec)
    {
      hide ObjectBuilt, ObjectOk, Utf8.IsValid;
      ok := Utf8.CheckUtf8(value);
      if ok {
        spec := spec.(id := Some(value));
      }
    }

    method Title(text: string) returns (ok: bool)
      requires Valid()
      modifies this
      ensures Valid() && (ok <==> Utf8.IsValid(text))
      ensures spec == if ok then old(spec).(title := Some(text)) else old(spec)
    {
      hide ObjectBuilt, ObjectOk, Utf8.IsValid;
      ok := Utf8.CheckUtf8(text);
      if ok {
        spec := spec.(title := Some(text));
      }
    }

    method Description(text: string) returns (ok: bool)
      requires Valid()
      modifies this
      ensures Valid() && (ok <==> Utf8.IsValid(text))
      ensures spec == if ok then old(spec).(description := Some(text)) else old(spec)
    {
      hide ObjectBuilt, ObjectOk, Utf8.IsValid;
      ok := Utf8.CheckUtf8(text);
      if ok {
        spec := spec.(description := Some(text));
      }
    }
  }

  /** `Schema(Object root)`: null stands for the thrown tree error. */
  method MakeSchema(lib: Scalars.Library, root: ConfigBuilder.Object) returns (schema: Schema?)
    requires root.Valid()
    ensures schema == null <==> !ObjectOk(lib, root.spec, false)
    ensures schema != null ==>
      fresh(schema) && schema.Valid() && schema.lib == lib && schema.spec == SchemaSpec(root.spec, None, None, None)
  {
    hide ObjectBuilt, ObjectOk, SchemaBuilt;
    var ok := ConfigChecker.CheckObject(lib, root.spec, false);
    schema := null;
    if ok {
      schema := new Schema(lib, root.spec);
    }
  }
}
