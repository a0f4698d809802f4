/** `PortConfigObj`: owner of one native `sp_port_config` structure. The pointer is NULL
    exactly when the object is disposed (or its construction failed); every accessor
    then raises ObjectDisposedException before any native call, and the structure is
    freed at most once, by the first of Dispose and the finaliser. */
module PortConfig {
  import opened Results
  import opened Codes
  import opened NativeLib
  import opened Errors

  class PortConfigObj {
    const native: Native
    var config: Ptr

    ghost predicate Valid()
      reads this, native
    {
      native.Valid() && (config != NULL ==> native.IsConfig(config))
    }

    /** The object as the field initialiser leaves it, before any constructor body. */
    constructor Blank(native: Native)
      ensures this.native == native && config == NULL
    {
      this.native := native;
      config := NULL;
    }

    /** `public PortConfigObj()`: sp_new_config writes the new pointer straight into the
        field, so after a failure the field is NULL and the object (unreachable to the
        caller, who sees the exception) has nothing for its finaliser to free. */
    static method New(native: Native) returns (obj: PortConfigObj, o: Outcome<()>)
      requires native.Valid()
      modifies native
      ensures fresh(obj) && obj.native == native && obj.Valid()
      ensures Reports(old(native.trace), native.trace, NewConfig, NULL, [], o)
      ensures o.Ok? <==> obj.config != NULL
      ensures o.Ok? ==> obj.config !in old(native.handles) && obj.config !in old(native.released)
                        && native.handles == old(native.handles)[obj.config := Config(Unset)]
      ensures o.Fail? ==> native.handles == old(native.handles)
      ensures old(native.released) <= native.released
    {
      obj := new PortConfigObj.Blank(native);
      var r, p := native.AllocateConfig();
      obj.config := p;
      o := ThrowExceptionWhenNegative(native, r);
    }

    /** `internal PortConfigObj(sp_port_config*)`: takes ownership of a structure the caller
        allocated; NULL is refused with ArgumentNullException before the field is set. */
    static method Adopt(native: Native, c: Ptr) returns (obj: PortConfigObj, o: Outcome<()>)
      requires native.Valid() && (c == NULL || native.IsConfig(c))
      ensures fresh(obj) && obj.native == native && obj.Valid()
      ensures c == NULL ==> o == Fail(ArgumentNull("config")) && obj.config == NULL
      ensures c != NULL ==> o == Ok(()) && obj.config == c
    {
      obj := new PortConfigObj.Blank(native);
      if c == NULL {
        return obj, Fail(ArgumentNull("config"));
      }
      obj.config := c;
      o := Ok(());
    }

    /** `Dispose(bool)`: whatever `disposing` says, a live structure is freed once and the
        field cleared; a disposed object makes no native call. */
    method DisposeCore(disposing: bool)
      requires Valid()
      modifies this, native
      ensures Valid() && config == NULL
      ensures old(config) != NULL ==>
                native.handles == old(native.handles) - {old(config)}
                && native.released == old(native.released) + {old(config)}
                && native.trace == old(native.trace) + [Call(FreeConfig, old(config), [], [], 0, 0, None, native.lastError)]
      ensures old(config) == NULL ==> unchanged(native)
    {
      if config != NULL {
        native.ReleaseConfig(config);
        config := NULL;
      }
    }

    /** `Dispose()`. */
    method Dispose()
      requires Valid()
      modifies this, native
      ensures Valid() && config == NULL
      ensures old(config) != NULL ==>
                native.handles == old(native.handles) - {old(config)}
                && native.released == old(native.released) + {old(config)}
                && native.trace == old(native.trace) + [Call(FreeConfig, old(config), [], [], 0, 0, None, native.lastError)]
      ensures old(config) == NULL ==> unchanged(native)
    {
      DisposeCore(true);
    }

    /** The finaliser `~PortConfigObj()`. */
    method Finalize()
      requires Valid()
      modifies this, native
      ensures Valid() && config == NULL
      ensures old(config) != NULL ==>
                native.handles == old(native.handles) - {old(config)}
                && native.released == old(native.released) + {old(config)}
                && native.trace == old(native.trace) + [Call(FreeConfig, old(config), [], [], 0, 0, None, native.lastError)]
      ensures old(config) == NULL ==> unchanged(native)
    {
      DisposeCore(false);
    }

    /** The internal `Config` property: the pointer, or ObjectDisposedException. */
    function ConfigPtr(): (o: Outcome<Ptr>)
      reads this
      ensures o.Fail? <==> config == NULL
      ensures o.Fail? ==> o.error == ObjectDisposed
      ensures o.Ok? ==> o.value == config && o.value != NULL
    {
      if config == NULL then Fail(ObjectDisposed) else Ok(config)
    }

    /** The getter of a field property (`Baudrate`, `Bits`, `Parity`, ...): the value the
        structure holds, which the field's type admits. */
    method GetField(f: Field) returns (o: Outcome<int>)
      requires Valid()
      modifies native
      ensures Valid()
      ensures config == NULL ==> o == Fail(ObjectDisposed) && unchanged(native)
      ensures config != NULL ==>
                Reports(old(native.trace), native.trace, GetConfigSetting(f), config, [], o)
                && native.handles == old(native.handles)
                && (o.Ok? ==> o.value == Get(native.handles[config].settings, f) && Admits(f, o.value))
    {
      if config == NULL {
        return Fail(ObjectDisposed);
      }
      ghost var t := native.trace;
      var r, v := native.GetSetting(config, f);
      assert native.trace[..|t|] == t;
      var n := Translated(native, r, t);
      o := Forward(n, v);
    }

    /** The setter of a field property: on success the structure holds `v` in `f` and
        every other field as before. */
    method SetField(f: Field, v: int) returns (o: Outcome<()>)
      requires Valid() && Admits(f, v)
      modifies native
      ensures Valid()
      ensures config == NULL ==> o == Fail(ObjectDisposed) && unchanged(native)
      ensures config != NULL ==>
                Reports(old(native.trace), native.trace, SetConfigSetting(f), config, [v], o)
                && (o.Ok? ==> native.handles == old(native.handles)[config := Config(With(old(native.handles)[config].settings, f, v))])
                && (o.Fail? ==> native.handles == old(native.handles))
    {
      if config == NULL {
        return Fail(ObjectDisposed);
      }
      o := Store(f, v);
    }

    /** The native step of a setter, on a live structure. */
    method Store(f: Field, v: int) returns (o: Outcome<()>)
      requires Valid() && config != NULL && Admits(f, v)
      modifies native
      ensures Valid()
      ensures Reports(old(native.trace), native.trace, SetConfigSetting(f), config, [v], o)
      ensures o.Ok? ==> native.handles == old(native.handles)[config := Config(With(old(native.handles)[config].settings, f, v))]
      ensures o.Fail? ==> native.handles == old(native.handles)
    {
      ghost var t := native.trace;
      var r := native.SetSetting(config, f, v);
      assert native.trace[..|t|] == t;
      TranslationOfAnswers(SetConfigSetting(f), r, native.lastError);
      var n := Translated(native, r, t);
      o := Forward(n, ());
    }

    /** The set-only `Flowcontrol` property: a preset that leaves baud rate, data bits,
        parity and stop bits as they were. */
    method SetFlowcontrol(fc: FlowControl) returns (o: Outcome<()>)
      requires Valid()
      modifies native
      ensures Valid()
      ensures config == NULL ==> o == Fail(ObjectDisposed) && unchanged(native)
      ensures config != NULL ==>
                Reports(old(native.trace), native.trace, SetConfigFlowcontrol, config, [FlowControlValue(fc)], o)
                && native.IsConfig(config) && native.handles == old(native.handles)[config := native.handles[config]]
                && (forall g | !IsLineField(g) :: Get(native.handles[config].settings, g) == Get(old(native.handles)[config].settings, g))
                && (o.Fail? ==> native.handles == old(native.handles))
    {
      if config == NULL {
        return Fail(ObjectDisposed);
      }
      ghost var t := native.trace;
      var r := native.SetFlowcontrolSetting(config, FlowControlValue(fc));
      assert native.trace[..|t|] == t;
      var n := Translated(native, r, t);
      o := Forward(n, ());
    }
  }

  /** Setting a field and reading it back yields the value set. */
  method SetThenGet(cfg: PortConfigObj, f: Field, v: int) returns (s: Outcome<()>, g: Outcome<int>)
    requires cfg.Valid() && cfg.config != NULL && Admits(f, v)
    modifies cfg.native
    ensures s.Ok? && g.Ok? ==> g.value == v
  {
    s := cfg.SetField(f, v);
    g := cfg.GetField(f);
  }

  /** Disposing and then finalising frees the structure once. */
  method DisposeThenFinalize(cfg: PortConfigObj)
    requires cfg.Valid() && cfg.config != NULL
    modifies cfg, cfg.native
    ensures Releases(cfg.native.trace, old(cfg.config)) == Releases(old(cfg.native.trace), old(cfg.config)) + 1
    ensures Releases(cfg.native.trace, old(cfg.config)) == 1
  {
    ghost var c := cfg.config;
    ghost var t := cfg.native.trace;
    cfg.Dispose();
    ghost var t1 := cfg.native.trace;
    cfg.Finalize();
    assert cfg.native.trace == t1;
    ReleasesConcat(t, t1[|t|..], c);
    assert t1 == t + t1[|t|..];
    assert Releases(t1[|t|..], c) == 1 by {
      assert t1[|t|..][1..] == [];
    }
  }

  /** Once disposed, a configuration object refuses its properties with
      ObjectDisposedException before any native call: after `Dispose()`, a getter and a
      setter both fail so, and the release of the structure is the only native call. */
  method UseAfterDispose(cfg: PortConfigObj, f: Field, v: int) returns (g: Outcome<int>, s: Outcome<()>)
    requires cfg.Valid() && Admits(f, v)
    modifies cfg, cfg.native
    ensures cfg.config == NULL && g == Fail(ObjectDisposed) && s == Fail(ObjectDisposed)
    ensures old(cfg.config) != NULL ==>
              cfg.native.trace == old(cfg.native.trace) + [Call(FreeConfig, old(cfg.config), [], [], 0, 0, None, cfg.native.lastError)]
    ensures old(cfg.config) == NULL ==> cfg.native.trace == old(cfg.native.trace)
  {
    cfg.Dispose();
    g := cfg.GetField(f);
    s := cfg.SetField(f, v);
  }
}
