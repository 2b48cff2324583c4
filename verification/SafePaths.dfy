/** Which paths are safe, said character by character and name by name, and the paths that
    every list may use. */
module SafePaths {
  import opened Libraries
  import opened PortablePaths
  import Text
  import Utf8

  // ---- Separators and ends --------------------------------------------------------

  /** Every separator is followed by a character that is none. */
  predicate Firm(s: string) {
    forall i | 0 <= i < |s| && s[i] == '/' :: i + 1 < |s| && s[i + 1] != '/'
  }

  lemma FirmOneMore(c: char, s: string)
    ensures Firm([c] + s) <==> Firm(s) && (c == '/' ==> s != "" && s[0] != '/')
  {
    var t := [c] + s;
    assert t[0] == c && forall i | 0 <= i < |s| :: t[i + 1] == s[i];
    if Firm(t) {
      forall i | 0 <= i < |s| && s[i] == '/' ensures i + 1 < |s| && s[i + 1] != '/' {
        assert t[i + 1] == '/' && t[i + 1 + 1] == s[i + 1];
      }
      assert c == '/' ==> t[0 + 1] == s[0];
    }
    if Firm(s) && (c == '/' ==> s != "" && s[0] != '/') {
      forall i | 0 <= i < |t| && t[i] == '/' ensures i + 1 < |t| && t[i + 1] != '/' {
        if i > 0 { assert t[i] == s[i - 1]; }
      }
    }
  }


  /** No part is empty exactly when separators stand between characters. */
  lemma {:induction false} NoEmptyPart(s: string)
    ensures "" !in Split(s) <==> s != "" && s[0] != '/' && Firm(s)
    ensures "" !in Split(s)[1..] <==> Firm(s)
  {
    if s != "" {
      var rest := Split(s[1..]);
      NoEmptyPart(s[1..]);
      FirmOneMore(s[0], s[1..]);
      assert s == [s[0]] + s[1..] && rest == [rest[0]] + rest[1..];
      if s[0] == '/' {
        assert Split(s) == [""] + rest && Split(s)[1..] == rest;
      } else {
        assert Split(s) == [[s[0]] + rest[0]] + rest[1..] && Split(s)[1..] == rest[1..];
      }
    }
  }

  predicate Dangling(c: char) {
    c == '.' || c == ' '
  }

  predicate WellEnded(part: string) {
    part == "" || !Dangling(part[|part| - 1])
  }

  /** A dot or a space is followed by another character of its part. */
  predicate Anchored(s: string) {
    forall i | 0 <= i < |s| && Dangling(s[i]) :: i + 1 < |s| && s[i + 1] != '/'
  }

  lemma AnchoredOneMore(c: char, s: string)
    ensures Anchored([c] + s) <==> Anchored(s) && (Dangling(c) ==> s != "" && s[0] != '/')
  {
    var t := [c] + s;
    assert t[0] == c && forall i | 0 <= i < |s| :: t[i + 1] == s[i];
    if Anchored(t) {
      forall i | 0 <= i < |s| && Dangling(s[i]) ensures i + 1 < |s| && s[i + 1] != '/' {
        assert Dangling(t[i + 1]) && t[i + 1 + 1] == s[i + 1];
      }
      assert Dangling(c) ==> t[0 + 1] == s[0];
    }
    if Anchored(s) && (Dangling(c) ==> s != "" && s[0] != '/') {
      forall i | 0 <= i < |t| && Dangling(t[i]) ensures i + 1 < |t| && t[i + 1] != '/' {
        if i > 0 { assert t[i] == s[i - 1]; }
      }
    }
  }


  lemma FirstPart(s: string)
    ensures Split(s)[0] == "" <==> s == "" || s[0] == '/'
  {
  }

  /** No part ends in a dot or a space exactly when each of these is followed so. */
  lemma {:induction false} PartsWellEnded(s: string)
    ensures (forall part | part in Split(s) :: WellEnded(part)) <==> Anchored(s)
  {
    if s != "" {
      var rest := Split(s[1..]);
      PartsWellEnded(s[1..]);
      AnchoredOneMore(s[0], s[1..]);
      FirstPart(s[1..]);
      assert s == [s[0]] + s[1..] && rest == [rest[0]] + rest[1..];
      if s[0] == '/' {
        assert Split(s) == [""] + rest;
      } else {
        var first := [s[0]] + rest[0];
        assert Split(s) == [first] + rest[1..];
        assert WellEnded(first) <==> if rest[0] == "" then !Dangling(s[0]) else WellEnded(rest[0]);
        assert rest[0] in rest && forall part | part in rest[1..] :: part in rest;
      }
    }
  }

  // ---- Devices --------------------------------------------------------------------

  function Upper(s: string): string {
    if s == "" then "" else [if 'a' <= s[0] <= 'z' then (s[0] as int - 32) as char else s[0]] + Upper(s[1..])
  }

  /** CON, PRN, AUX, NUL, the consoles, and the numbered ports, superscripts included. */
  predicate DeviceName(name: string) {
    || name in {"CON", "PRN", "AUX", "NUL", "CONIN$", "CONOUT$"}
    || exists port, n |
         port in {"COM", "LPT"}
         && n in {'1', '2', '3', '4', '5', '6', '7', '8', '9', '\U{B9}', '\U{B2}', '\U{B3}'} ::
         name == port + [n]
  }

  /** The part is the name, alone or with an extension. */
  predicate Extends(part: string, name: string, extension: string) {
    '.' !in name && (part == name || part == name + "." + extension)
  }

  /** The part is a device in any case, alone or with any extension. */
  ghost predicate NamesDevice(part: string) {
    exists name, extension :: Extends(part, name, extension) && DeviceName(Upper(name))
  }

  lemma {:induction false} StemOf(name: string, extension: string)
    requires '.' !in name
    ensures Stem(name) == Upper(name) && Stem(name + "." + extension) == Upper(name)
  {
    var part := name + "." + extension;
    if name == "" {
      assert part == "." + extension;
    } else {
      StemOf(name[1..], extension);
      assert part[1..] == name[1..] + "." + extension && part[0] == name[0] != '.';
      assert name == [name[0]] + name[1..];
    }
  }

  lemma {:induction false} CutAtDot(part: string) returns (name: string, extension: string)
    ensures Extends(part, name, extension)
  {
    if part == "" || part[0] == '.' {
      name, extension := "", if part == "" then "" else part[1..];
      assert part != "" ==> part == "" + "." + extension;
    } else {
      var tail;
      tail, extension := CutAtDot(part[1..]);
      name := [part[0]] + tail;
      assert part == [part[0]] + part[1..];
      assert [part[0]] + (tail + "." + extension) == name + "." + extension;
    }
  }

  lemma DeviceStem(stem: string)
    ensures DeviceName(stem) <==>
            stem in DEVICES || (|stem| == 4 && stem[..3] in PORTS && stem[3] in PORT_NUMBERS)
  {
    if |stem| == 4 { assert stem == stem[..3] + [stem[3]]; }
    if port, n :| port in {"COM", "LPT"}
                  && n in {'1', '2', '3', '4', '5', '6', '7', '8', '9', '\U{B9}', '\U{B2}', '\U{B3}'}
                  && stem == port + [n]
    {
      assert stem[..3] == port && stem[3] == n;
    }
  }

  lemma NamedDevice(part: string, name: string, extension: string)
    requires Extends(part, name, extension)
    ensures ReservedDevice(part) <==> DeviceName(Upper(name))
  {
    StemOf(name, extension);
    DeviceStem(Upper(name));
    assert Stem(part) == Upper(name);
  }

  lemma DeviceExactly(part: string)
    ensures ReservedDevice(part) <==> NamesDevice(part)
  {
    if ReservedDevice(part) {
      var name, extension := CutAtDot(part);
      NamedDevice(part, name, extension);
    }
    if NamesDevice(part) {
      var name, extension :| Extends(part, name, extension) && DeviceName(Upper(name));
      NamedDevice(part, name, extension);
    }
  }

  lemma {:induction false} UpperSize(s: string)
    ensures |Upper(s)| == |s|
  {
    if s != "" { UpperSize(s[1..]); }
  }

  lemma DeviceLength(name: string)
    requires DeviceName(name)
    ensures |name| in {3, 4, 6, 7}
  {
    if name !in {"CON", "PRN", "AUX", "NUL", "CONIN$", "CONOUT$"} {
      var port, n :| port in {"COM", "LPT"} && name == port + [n];
    }
  }

  lemma NoDeviceOfSize(part: string, name: string, extension: string)
    requires Extends(part, name, extension) && |name| !in {3, 4, 6, 7}
    ensures !NamesDevice(part)
  {
    UpperSize(name);
    NamedDevice(part, name, extension);
    if DeviceName(Upper(name)) { DeviceLength(Upper(name)); }
    DeviceExactly(part);
  }

  // ---- Safe paths -----------------------------------------------------------------

  predicate AllowedChar(c: char) {
    && 0x20 <= c as int && !(0x7F <= c as int < 0xA0)
    && c != '\\' && c != ':' && c != '<' && c != '>' && c != '"' && c != '|' && c != '?' && c != '*'
  }

  lemma AllowedExactly(c: char)
    ensures AllowedChar(c) <==> c !in FORBIDDEN && !Control(c)
  {
  }

  lemma PartsExactly(path: string)
    requires path != ""
    ensures (forall part | part in Split(path) :: SafePart(part)) <==>
            && path[0] != '/' && Firm(path) && Anchored(path)
            && forall part | part in Split(path) :: |Utf8.Encode(part)| <= 255 && !NamesDevice(part)
  {
    NoEmptyPart(path);
    PartsWellEnded(path);
    forall part | part in Split(path)
      ensures SafePart(part) <==>
              part != "" && WellEnded(part) && |Utf8.Encode(part)| <= 255 && !NamesDevice(part)
    {
      DeviceExactly(part);
    }
  }

  /** A path is safe exactly when it is in NFC and of 1 to 1024 bytes, with allowed
      characters only, no tilde at its start, separators between characters, dots and spaces
      never at the end of a part, and parts of at most 255 bytes that name no device. */
  lemma SafePathExactly(lib: Libraries, path: string)
    ensures SafePath(lib, path) <==>
            && path != "" && |Utf8.Encode(path)| <= 1024 && lib.nfc(path) == path
            && (forall c | c in path :: AllowedChar(c))
            && path[0] != '~' && path[0] != '/' && Firm(path) && Anchored(path)
            && forall part | part in Split(path) :: |Utf8.Encode(part)| <= 255 && !NamesDevice(part)
  {
    if path != "" { PartsExactly(path); }
    forall c | c in path ensures AllowedChar(c) <==> c !in FORBIDDEN && !Control(c) {
      AllowedExactly(c);
    }
  }

  // ---- Ordinary paths -------------------------------------------------------------

  lemma {:induction false} AsciiSize(s: string)
    requires Ascii(s)
    ensures |Utf8.Encode(s)| == |s|
  {
    if s != "" {
      assert s[0] in s && forall c | c in s[1..] :: c in s;
      AsciiSize(s[1..]);
    }
  }

  /** An ASCII letter or digit, a hyphen, an underscore or a dot. */
  predicate Ordinary(c: char) {
    'a' <= c <= 'z' || 'A' <= c <= 'Z' || '0' <= c <= '9' || c == '-' || c == '_' || c == '.'
  }

  ghost predicate OrdinaryPart(part: string) {
    && 1 <= |part| <= 255 && (forall i | 0 <= i < |part| :: Ordinary(part[i]))
    && part[|part| - 1] != '.' && !NamesDevice(part)
  }

  lemma OrdinaryIsSafePart(part: string)
    requires OrdinaryPart(part)
    ensures SafePart(part)
  {
    forall c | c in part ensures c as int < 0x80 {
      assert Ordinary(c);
    }
    AsciiSize(part);
    DeviceExactly(part);
    assert Ordinary(part[|part| - 1]);
  }

  lemma {:induction false} CharsOfParts(s: string, c: char)
    requires c in s && c != '/'
    ensures exists part | part in Split(s) :: c in part
  {
    var rest := Split(s[1..]);
    assert s == [s[0]] + s[1..] && rest == [rest[0]] + rest[1..];
    if s[0] == '/' {
      CharsOfParts(s[1..], c);
      assert forall part | part in rest :: part in Split(s);
    } else {
      var first := [s[0]] + rest[0];
      assert Split(s) == [first] + rest[1..] && first in Split(s);
      if c != s[0] {
        CharsOfParts(s[1..], c);
        var part :| part in rest && c in part;
        assert part == rest[0] || part in rest[1..];
        assert part in rest[1..] ==> part in Split(s);
      }
    }
  }

  lemma OrdinaryChar(c: char)
    requires Ordinary(c) || c == '/'
    ensures c as int < 0x80 && c !in FORBIDDEN && !Control(c) && c != '~'
  {
  }

  lemma OrdinaryChars(path: string)
    requires forall part | part in Split(path) :: OrdinaryPart(part)
    ensures forall c | c in path :: Ordinary(c) || c == '/'
  {
    forall c | c in path ensures Ordinary(c) || c == '/' {
      if c != '/' {
        CharsOfParts(path, c);
        var part :| part in Split(path) && c in part;
        var i :| 0 <= i < |part| && part[i] == c;
        assert OrdinaryPart(part);
      }
    }
  }

  /** Paths of ordinary parts are safe: the system has room for every list that keeps to them. */
  lemma OrdinaryIsSafe(lib: Libraries, path: string)
    requires NfcLaw(lib) && |path| <= 1024 && forall part | part in Split(path) :: OrdinaryPart(part)
    ensures SafePath(lib, path) && |Utf8.Encode(path)| == |path|
  {
    NoEmptyPart(path);
    forall part | part in Split(path) ensures SafePart(part) && part != "" {
      OrdinaryIsSafePart(part);
    }
    OrdinaryChars(path);
    forall c | c in path ensures c as int < 0x80 && c !in FORBIDDEN && !Control(c) && c != '~' {
      OrdinaryChar(c);
    }
    assert path[0] in path && Ascii(path);
    AsciiSize(path);
  }

  /** A safe path stays safe below an ordinary directory, as long as there is room. */
  lemma SafeBelow(lib: Libraries, directory: string, path: string)
    requires NfcLaw(lib) && SafePath(lib, path) && OrdinaryPart(directory)
    requires |directory| + 1 + |Utf8.Encode(path)| <= 1024
    ensures SafePath(lib, directory + "/" + path)
    ensures |Utf8.Encode(directory + "/" + path)| == |directory| + 1 + |Utf8.Encode(path)|
  {
    var head, whole := directory + "/", directory + "/" + path;
    forall c | c in head ensures c as int < 0x80 && c !in FORBIDDEN && !Control(c) && c != '~' {
      assert c == '/' || Ordinary(c);
    }
    AsciiSize(head);
    Utf8.EncodeConcat(head, path);
    assert lib.nfc(whole) == lib.nfc(directory) + "/" + lib.nfc(path);
    assert Ascii(directory);
    SplitSlash(directory, path);
    forall c | c in directory ensures c != '/' {
      assert Ordinary(c);
    }
    Text.SplitWhole('/', directory);
    OrdinaryIsSafePart(directory);
    assert whole[0] == head[0] && head[0] in head && directory[0] == head[0] && Ordinary(directory[0]);
    assert forall c | c in whole :: c in head || c in path;
  }
}
