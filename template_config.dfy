/** `TemplateConfig`: the configured templates and how loading them fills
    the template engine's registry. */
module TemplateConfiguration {

  import opened JavaString
  import opened TemplateRecord
  import opened Templating

  /** One `[templates.<name>]` table; either field may be missing (null). */
  datatype TemplateEntry = TemplateEntry(content: Option<string>, description: Option<string>)

  type TemplateTable = map<string, Option<TemplateEntry>>

  /** What reading the templates file gives: the `enabled` flag and the
      `templates` table, which may be absent (null). */
  datatype TemplateFile = TemplateFile(enabled: bool, templates: Option<TemplateTable>)

  /** Only an entry with non-empty content is registered. */
  predicate Registrable(entry: Option<TemplateEntry>) {
    entry.Some? && entry.value.content.Some? && entry.value.content.value != ""
  }

  /** `registry` is what registering the entries of `table` can leave: every
      registrable name is present under its lower-cased key, and every key
      holds one such entry, under its own name and with its content. When
      two names differ only in case, which of them is kept depends on the
      order of the map, which Java leaves unspecified. */
  ghost predicate RegisteredFrom(registry: Registry, table: TemplateTable) {
    (forall name :: name in table && Registrable(table[name]) ==> ToLower(name) in registry) &&
    (forall key :: key in registry ==>
       var t := registry[key];
       t.name in table && Registrable(table[t.name]) && ToLower(t.name) == key
       && t.content == table[t.name].value.content.value)
  }

  /** The table a loaded file ends up with: an absent one becomes empty. */
  function Normalised(templates: Option<TemplateTable>): TemplateTable {
    if templates.None? then map[] else templates.value
  }

  function EngineSet(engine: Option<TemplateEngine>): set<TemplateEngine> {
    if engine.Some? then {engine.value} else {}
  }

  class TemplateConfig {
    var enabled: bool
    var templates: TemplateTable

    /** `new TemplateConfig()`: disabled, with no templates. */
    constructor()
      ensures !enabled && templates == map[]
    {
      enabled := false;
      templates := map[];
    }

    /** `registerTemplates()`: with no integration or no engine (`None`),
        nothing; otherwise the registry is cleared and every registrable
        entry of this object's table is registered, in map order. */
    method RegisterTemplates(engine: Option<TemplateEngine>)
      modifies EngineSet(engine)
      ensures engine.Some? ==> engine.value.Valid() && RegisteredFrom(engine.value.registeredTemplates, templates)
    {
      if engine.None? {
        return;
      }
      var e := engine.value;
      e.ClearTemplates();
      var remaining := templates.Keys;
      while remaining != {}
        invariant remaining <= templates.Keys
        invariant e.Valid()
        invariant forall name :: name in templates && name !in remaining && Registrable(templates[name])
                    ==> ToLower(name) in e.registeredTemplates
        invariant forall key :: key in e.registeredTemplates ==>
                    var t := e.registeredTemplates[key];
                    t.name in templates && Registrable(templates[t.name]) && ToLower(t.name) == key
                    && t.content == templates[t.name].value.content.value
        decreases |remaining|
      {
        var name :| name in remaining;
        remaining := remaining - {name};
        var entry := templates[name];
        if entry.Some? && entry.value.content.Some? && entry.value.content.value != "" {
          e.RegisterTemplate(name, entry.value.content.value);
        }
      }
    }

    /** `loadConfig()` as written: a missing file gives a fresh default
        instance and registers nothing; otherwise the file is read, an
        absent table replaced by an empty one, and then the templates of
        this object, not those of the instance just read, are registered. */
    method LoadConfig(file: Option<TemplateFile>, engine: Option<TemplateEngine>) returns (instance: TemplateConfig)
      modifies EngineSet(engine)
      ensures fresh(instance)
      ensures file.None? ==> !instance.enabled && instance.templates == map[]
      ensures file.None? && engine.Some? ==> unchanged(engine.value)
      ensures file.Some? ==> instance.enabled == file.value.enabled && instance.templates == Normalised(file.value.templates)
      ensures file.Some? && engine.Some? ==>
                engine.value.Valid() && RegisteredFrom(engine.value.registeredTemplates, templates)
    {
      if file.None? {
        instance := new TemplateConfig();
        return;
      }
      instance := new TemplateConfig();
      instance.enabled := file.value.enabled;
      match file.value.templates {
        case None => instance.templates := map[];
        case Some(table) => instance.templates := table;
      }
      RegisterTemplates(engine);
    }

    /** `loadConfig()` registering the templates of the instance it has just
        read, as its comment says it does. */
    method LoadConfigCorrected(file: Option<TemplateFile>, engine: Option<TemplateEngine>) returns (instance: TemplateConfig)
      modifies EngineSet(engine)
      ensures fresh(instance)
      ensures file.None? ==> !instance.enabled && instance.templates == map[]
      ensures file.None? && engine.Some? ==> unchanged(engine.value)
      ensures file.Some? ==> instance.enabled == file.value.enabled && instance.templates == Normalised(file.value.templates)
      ensures file.Some? && engine.Some? ==>
                engine.value.Valid() && RegisteredFrom(engine.value.registeredTemplates, instance.templates)
    {
      instance := new TemplateConfig();
      if file.None? {
        return;
      }
      instance.enabled := file.value.enabled;
      instance.templates := Normalised(file.value.templates);
      instance.RegisterTemplates(engine);
    }
  }

  // ---------------------------------------------------------------------------
  // Properties of a registry filled from a table

  /** The registry's keys are exactly the lower-cased names of the
      registrable entries. */
  lemma RegisteredKeys(registry: Registry, table: TemplateTable)
    requires RegisteredFrom(registry, table)
    ensures registry.Keys == set name | name in table && Registrable(table[name]) :: ToLower(name)
  {
    forall key | key in registry
      ensures key in set name | name in table && Registrable(table[name]) :: ToLower(name)
    {
      var t := registry[key];
      assert ToLower(t.name) == key;
    }
  }

  /** An entry without content, or with empty content, is not registered
      under a name of its own. */
  lemma UnregistrableAbsent(registry: Registry, table: TemplateTable, name: string)
    requires RegisteredFrom(registry, table)
    requires forall other :: other in table && ToLower(other) == ToLower(name) ==> !Registrable(table[other])
    ensures Lookup(registry, name).None?
  {
  }

  /** When no two registrable names differ only in case, every registrable
      entry can be looked up under any spelling of its name and gives back
      its own content. */
  lemma LookupFindsEntry(registry: Registry, table: TemplateTable, name: string, spelling: string)
    requires RegisteredFrom(registry, table)
    requires forall a, b ::
               (a in table && b in table && Registrable(table[a]) && Registrable(table[b]) && ToLower(a) == ToLower(b))
               ==> a == b
    requires name in table && Registrable(table[name]) && ToLower(spelling) == ToLower(name)
    ensures Lookup(registry, spelling) == Some(Template(name, table[name].value.content.value))
  {
    var t := registry[ToLower(name)];
    assert ToLower(t.name) == ToLower(name);
  }

  /** The default receiver (empty table) against a file that defines
      template `a` with content `x`: after loading as written, `a` cannot
      be found, though the loaded instance has it. */
  lemma StaleReceiverMissesLoadedTemplate(registry: Registry)
    requires RegisteredFrom(registry, map[])
    ensures var loaded := Normalised(Some(map["a" := Some(TemplateEntry(Some("x"), None))]));
            "a" in loaded && Registrable(loaded["a"])
    ensures Lookup(registry, "a").None?
  {
  }

  /** After the corrected load, every template of the file can be looked up
      (and, without case clashes, gives back its content). */
  lemma LoadedTemplatesFound(registry: Registry, file: TemplateFile, name: string)
    requires RegisteredFrom(registry, Normalised(file.templates))
    requires name in Normalised(file.templates) && Registrable(Normalised(file.templates)[name])
    ensures Lookup(registry, name).Some?
    ensures ToLower(Lookup(registry, name).value.name) == ToLower(name)
  {
  }
}
