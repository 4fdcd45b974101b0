/** The djb2a hashes of the keywords the step reader switches on, evaluated
    byte by byte, and the fact that the eight type names and the seven header
    keywords hash to pairwise different values (so each switch is well formed
    and matches only its own keyword). */
module KeywordHashes {
  import opened Text
  import opened HashString


  /** Byte codes of ' ', 'a', 'b', 'c', 'd', 'e' as hash inputs. */
  lemma ByteCodes0(c: Byte)
    ensures c as int == 32 ==> Widen(c) == 32
    ensures c as int == 97 ==> Widen(c) == 97
    ensures c as int == 98 ==> Widen(c) == 98
    ensures c as int == 99 ==> Widen(c) == 99
    ensures c as int == 100 ==> Widen(c) == 100
    ensures c as int == 101 ==> Widen(c) == 101
  {
  }

  /** Byte codes of 'f', 'h', 'i', 'l', 'm', 'n' as hash inputs. */
  lemma ByteCodes1(c: Byte)
    ensures c as int == 102 ==> Widen(c) == 102
    ensures c as int == 104 ==> Widen(c) == 104
    ensures c as int == 105 ==> Widen(c) == 105
    ensures c as int == 108 ==> Widen(c) == 108
    ensures c as int == 109 ==> Widen(c) == 109
    ensures c as int == 110 ==> Widen(c) == 110
  {
  }

  /** Byte codes of 'o', 'p', 'r', 's', 't', 'u' as hash inputs. */
  lemma ByteCodes2(c: Byte)
    ensures c as int == 111 ==> Widen(c) == 111
    ensures c as int == 112 ==> Widen(c) == 112
    ensures c as int == 114 ==> Widen(c) == 114
    ensures c as int == 115 ==> Widen(c) == 115
    ensures c as int == 116 ==> Widen(c) == 116
    ensures c as int == 117 ==> Widen(c) == 117
  {
  }

  /** Byte codes of 'v', 'w', 'x', 'y' as hash inputs. */
  lemma ByteCodes3(c: Byte)
    ensures c as int == 118 ==> Widen(c) == 118
    ensures c as int == 119 ==> Widen(c) == 119
    ensures c as int == 120 ==> Widen(c) == 120
    ensures c as int == 121 ==> Widen(c) == 121
  {
  }

  lemma TypeHash0()
    ensures Djb2a("typ") == 0xb8760f8
  {
    ByteCodes2('t'); HashSnoc("", 't');
    assert "" + ['t'] == "t";
    ByteCodes3('y'); HashSnoc("t", 'y');
    assert "t" + ['y'] == "ty";
    ByteCodes2('p'); HashSnoc("ty", 'p');
    assert "ty" + ['p'] == "typ";
  }

  /** The hash of "type". */
  lemma TypeHash()
    ensures Djb2a("type") == 0x17c737f9d
  {
    TypeHash0();
    ByteCodes0('e'); HashSnoc("typ", 'e');
    assert "typ" + ['e'] == "type";
  }

  lemma LabelHash0()
    ensures Djb2a("lab") == 0xb873fea
  {
    ByteCodes1('l'); HashSnoc("", 'l');
    assert "" + ['l'] == "l";
    ByteCodes0('a'); HashSnoc("l", 'a');
    assert "l" + ['a'] == "la";
    ByteCodes0('b'); HashSnoc("la", 'b');
    assert "la" + ['b'] == "lab";
  }

  /** The hash of "label". */
  lemma LabelHash()
    ensures Djb2a("label") == 0x310a56e743
  {
    LabelHash0();
    ByteCodes0('e'); HashSnoc("lab", 'e');
    assert "lab" + ['e'] == "labe";
    ByteCodes1('l'); HashSnoc("labe", 'l');
    assert "labe" + ['l'] == "label";
  }

  lemma UseContextVariableNamesHash0()
    ensures Djb2a("use") == 0xb876466
  {
    ByteCodes2('u'); HashSnoc("", 'u');
    assert "" + ['u'] == "u";
    ByteCodes2('s'); HashSnoc("u", 's');
    assert "u" + ['s'] == "us";
    ByteCodes0('e'); HashSnoc("us", 'e');
    assert "us" + ['e'] == "use";
  }

  lemma UseContextVariableNamesHash1()
    ensures Djb2a("use co") == 0x6526934462a
  {
    UseContextVariableNamesHash0();
    ByteCodes0(' '); HashSnoc("use", ' ');
    assert "use" + [' '] == "use ";
    ByteCodes0('c'); HashSnoc("use ", 'c');
    assert "use " + ['c'] == "use c";
    ByteCodes2('o'); HashSnoc("use c", 'o');
    assert "use c" + ['o'] == "use co";
  }

  lemma UseContextVariableNamesHash2()
    ensures Djb2a("use conte") == 0x37776c2732be995
  {
    UseContextVariableNamesHash1();
    ByteCodes1('n'); HashSnoc("use co", 'n');
    assert "use co" + ['n'] == "use con";
    ByteCodes2('t'); HashSnoc("use con", 't');
    assert "use con" + ['t'] == "use cont";
    ByteCodes0('e'); HashSnoc("use cont", 'e');
    assert "use cont" + ['e'] == "use conte";
  }

  lemma UseContextVariableNamesHash3()
    ensures Djb2a("use context ") == 0xa53656a9a7615899
  {
    UseContextVariableNamesHash2();
    ByteCodes3('x'); HashSnoc("use conte", 'x');
    assert "use conte" + ['x'] == "use contex";
    ByteCodes2('t'); HashSnoc("use contex", 't');
    assert "use contex" + ['t'] == "use context";
    ByteCodes0(' '); HashSnoc("use context", ' ');
    assert "use context" + [' '] == "use context ";
  }

  lemma UseContextVariableNamesHash4()
    ensures Djb2a("use context var") == 0x50fb9dd1a8569ffc
  {
    UseContextVariableNamesHash3();
    ByteCodes3('v'); HashSnoc("use context ", 'v');
    assert "use context " + ['v'] == "use context v";
    ByteCodes0('a'); HashSnoc("use context v", 'a');
    assert "use context v" + ['a'] == "use context va";
    ByteCodes2('r'); HashSnoc("use context va", 'r');
    assert "use context va" + ['r'] == "use context var";
  }

  lemma UseContextVariableNamesHash5()
    ensures Djb2a("use context variab") == 0x49a57480284ebc36
  {
    UseContextVariableNamesHash4();
    ByteCodes1('i'); HashSnoc("use context var", 'i');
    assert "use context var" + ['i'] == "use context vari";
    ByteCodes0('a'); HashSnoc("use context vari", 'a');
    assert "use context vari" + ['a'] == "use context varia";
    ByteCodes0('b'); HashSnoc("use context varia", 'b');
    assert "use context varia" + ['b'] == "use context variab";
  }

  lemma UseContextVariableNamesHash6()
    ensures Djb2a("use context variable ") == 0x63673a9a54c14dbf
  {
    UseContextVariableNamesHash5();
    ByteCodes1('l'); HashSnoc("use context variab", 'l');
    assert "use context variab" + ['l'] == "use context variabl";
    ByteCodes0('e'); HashSnoc("use context variabl", 'e');
    assert "use context variabl" + ['e'] == "use context variable";
    ByteCodes0(' '); HashSnoc("use context variable", ' ');
    assert "use context variable" + [' '] == "use context variable ";
  }

  lemma UseContextVariableNamesHash7()
    ensures Djb2a("use context variable nam") == 0x1e299ad3d3c4521d
  {
    UseContextVariableNamesHash6();
    ByteCodes1('n'); HashSnoc("use context variable ", 'n');
    assert "use context variable " + ['n'] == "use context variable n";
    ByteCodes0('a'); HashSnoc("use context variable n", 'a');
    assert "use context variable n" + ['a'] == "use context variable na";
    ByteCodes1('m'); HashSnoc("use context variable na", 'm');
    assert "use context variable na" + ['m'] == "use context variable nam";
  }

  /** The hash of "use context variable names". */
  lemma UseContextVariableNamesHash()
    ensures Djb2a("use context variable names") == 0x4efb9f17d62150ab
  {
    UseContextVariableNamesHash7();
    ByteCodes0('e'); HashSnoc("use context variable nam", 'e');
    assert "use context variable nam" + ['e'] == "use context variable name";
    ByteCodes2('s'); HashSnoc("use context variable name", 's');
    assert "use context variable name" + ['s'] == "use context variable names";
  }

  lemma TimeOfLastModificationHash0()
    ensures Djb2a("tim") == 0xb8762f5
  {
    ByteCodes2('t'); HashSnoc("", 't');
    assert "" + ['t'] == "t";
    ByteCodes1('i'); HashSnoc("t", 'i');
    assert "t" + ['i'] == "ti";
    ByteCodes1('m'); HashSnoc("ti", 'm');
    assert "ti" + ['m'] == "tim";
  }

  lemma TimeOfLastModificationHash1()
    ensures Djb2a("time o") == 0x652686bf9bf
  {
    TimeOfLastModificationHash0();
    ByteCodes0('e'); HashSnoc("tim", 'e');
    assert "tim" + ['e'] == "time";
    ByteCodes0(' '); HashSnoc("time", ' ');
    assert "time" + [' '] == "time ";
    ByteCodes2('o'); HashSnoc("time ", 'o');
    assert "time " + ['o'] == "time o";
  }

  lemma TimeOfLastModificationHash2()
    ensures Djb2a("time of l") == 0x37776549d7f9835
  {
    TimeOfLastModificationHash1();
    ByteCodes1('f'); HashSnoc("time o", 'f');
    assert "time o" + ['f'] == "time of";
    ByteCodes0(' '); HashSnoc("time of", ' ');
    assert "time of" + [' '] == "time of ";
    ByteCodes1('l'); HashSnoc("time of ", 'l');
    assert "time of " + ['l'] == "time of l";
  }

  lemma TimeOfLastModificationHash3()
    ensures Djb2a("time of last") == 0xa4fa1c3174951e53
  {
    TimeOfLastModificationHash2();
    ByteCodes0('a'); HashSnoc("time of l", 'a');
    assert "time of l" + ['a'] == "time of la";
    ByteCodes2('s'); HashSnoc("time of la", 's');
    assert "time of la" + ['s'] == "time of las";
    ByteCodes2('t'); HashSnoc("time of las", 't');
    assert "time of las" + ['t'] == "time of last";
  }

  lemma TimeOfLastModificationHash4()
    ensures Djb2a("time of last mo") == 0x4a2fba7eb9154e31
  {
    TimeOfLastModificationHash3();
    ByteCodes0(' '); HashSnoc("time of last", ' ');
    assert "time of last" + [' '] == "time of last ";
    ByteCodes1('m'); HashSnoc("time of last ", 'm');
    assert "time of last " + ['m'] == "time of last m";
    ByteCodes2('o'); HashSnoc("time of last m", 'o');
    assert "time of last m" + ['o'] == "time of last mo";
  }

  lemma TimeOfLastModificationHash5()
    ensures Djb2a("time of last modif") == 0x3612f73bc7d4f25a
  {
    TimeOfLastModificationHash4();
    ByteCodes0('d'); HashSnoc("time of last mo", 'd');
    assert "time of last mo" + ['d'] == "time of last mod";
    ByteCodes1('i'); HashSnoc("time of last mod", 'i');
    assert "time of last mod" + ['i'] == "time of last modi";
    ByteCodes1('f'); HashSnoc("time of last modi", 'f');
    assert "time of last modi" + ['f'] == "time of last modif";
  }

  lemma TimeOfLastModificationHash6()
    ensures Djb2a("time of last modifica") == 0xdc645eef2c3a8251
  {
    TimeOfLastModificationHash5();
    ByteCodes1('i'); HashSnoc("time of last modif", 'i');
    assert "time of last modif" + ['i'] == "time of last modifi";
    ByteCodes0('c'); HashSnoc("time of last modifi", 'c');
    assert "time of last modifi" + ['c'] == "time of last modific";
    ByteCodes0('a'); HashSnoc("time of last modific", 'a');
    assert "time of last modific" + ['a'] == "time of last modifica";
  }

  lemma TimeOfLastModificationHash7()
    ensures Djb2a("time of last modificatio") == 0x65f2c4cfc16de623
  {
    TimeOfLastModificationHash6();
    ByteCodes2('t'); HashSnoc("time of last modifica", 't');
    assert "time of last modifica" + ['t'] == "time of last modificat";
    ByteCodes1('i'); HashSnoc("time of last modificat", 'i');
    assert "time of last modificat" + ['i'] == "time of last modificati";
    ByteCodes2('o'); HashSnoc("time of last modificati", 'o');
    assert "time of last modificati" + ['o'] == "time of last modificatio";
  }

  /** The hash of "time of last modification". */
  lemma TimeOfLastModificationHash()
    ensures Djb2a("time of last modification") == 0x244b5ec7ef2aaaed
  {
    TimeOfLastModificationHash7();
    ByteCodes1('n'); HashSnoc("time of last modificatio", 'n');
    assert "time of last modificatio" + ['n'] == "time of last modification";
  }

  lemma TimeOfLastExecutionHash0()
    ensures Djb2a("tim") == 0xb8762f5
  {
    ByteCodes2('t'); HashSnoc("", 't');
    assert "" + ['t'] == "t";
    ByteCodes1('i'); HashSnoc("t", 'i');
    assert "t" + ['i'] == "ti";
    ByteCodes1('m'); HashSnoc("ti", 'm');
    assert "ti" + ['m'] == "tim";
  }

  lemma TimeOfLastExecutionHash1()
    ensures Djb2a("time o") == 0x652686bf9bf
  {
    TimeOfLastExecutionHash0();
    ByteCodes0('e'); HashSnoc("tim", 'e');
    assert "tim" + ['e'] == "time";
    ByteCodes0(' '); HashSnoc("time", ' ');
    assert "time" + [' '] == "time ";
    ByteCodes2('o'); HashSnoc("time ", 'o');
    assert "time " + ['o'] == "time o";
  }

  lemma TimeOfLastExecutionHash2()
    ensures Djb2a("time of l") == 0x37776549d7f9835
  {
    TimeOfLastExecutionHash1();
    ByteCodes1('f'); HashSnoc("time o", 'f');
    assert "time o" + ['f'] == "time of";
    ByteCodes0(' '); HashSnoc("time of", ' ');
    assert "time of" + [' '] == "time of ";
    ByteCodes1('l'); HashSnoc("time of ", 'l');
    assert "time of " + ['l'] == "time of l";
  }

  lemma TimeOfLastExecutionHash3()
    ensures Djb2a("time of last") == 0xa4fa1c3174951e53
  {
    TimeOfLastExecutionHash2();
    ByteCodes0('a'); HashSnoc("time of l", 'a');
    assert "time of l" + ['a'] == "time of la";
    ByteCodes2('s'); HashSnoc("time of la", 's');
    assert "time of la" + ['s'] == "time of las";
    ByteCodes2('t'); HashSnoc("time of las", 't');
    assert "time of las" + ['t'] == "time of last";
  }

  lemma TimeOfLastExecutionHash4()
    ensures Djb2a("time of last ex") == 0x4a2fba7eb9154d2e
  {
    TimeOfLastExecutionHash3();
    ByteCodes0(' '); HashSnoc("time of last", ' ');
    assert "time of last" + [' '] == "time of last ";
    ByteCodes0('e'); HashSnoc("time of last ", 'e');
    assert "time of last " + ['e'] == "time of last e";
    ByteCodes3('x'); HashSnoc("time of last e", 'x');
    assert "time of last e" + ['x'] == "time of last ex";
  }

  lemma TimeOfLastExecutionHash5()
    ensures Djb2a("time of last execu") == 0x3612f73bc745b4fd
  {
    TimeOfLastExecutionHash4();
    ByteCodes0('e'); HashSnoc("time of last ex", 'e');
    assert "time of last ex" + ['e'] == "time of last exe";
    ByteCodes0('c'); HashSnoc("time of last exe", 'c');
    assert "time of last exe" + ['c'] == "time of last exec";
    ByteCodes2('u'); HashSnoc("time of last exec", 'u');
    assert "time of last exec" + ['u'] == "time of last execu";
  }

  lemma TimeOfLastExecutionHash6()
    ensures Djb2a("time of last executio") == 0xdc645ea0a0653e0f
  {
    TimeOfLastExecutionHash5();
    ByteCodes2('t'); HashSnoc("time of last execu", 't');
    assert "time of last execu" + ['t'] == "time of last execut";
    ByteCodes1('i'); HashSnoc("time of last execut", 'i');
    assert "time of last execut" + ['i'] == "time of last executi";
    ByteCodes2('o'); HashSnoc("time of last executi", 'o');
    assert "time of last executi" + ['o'] == "time of last executio";
  }

  /** The hash of "time of last execution". */
  lemma TimeOfLastExecutionHash()
    ensures Djb2a("time of last execution") == 0x68f032b4ad0cff81
  {
    TimeOfLastExecutionHash6();
    ByteCodes1('n'); HashSnoc("time of last executio", 'n');
    assert "time of last executio" + ['n'] == "time of last execution";
  }

  lemma TimeoutHash0()
    ensures Djb2a("tim") == 0xb8762f5
  {
    ByteCodes2('t'); HashSnoc("", 't');
    assert "" + ['t'] == "t";
    ByteCodes1('i'); HashSnoc("t", 'i');
    assert "t" + ['i'] == "ti";
    ByteCodes1('m'); HashSnoc("ti", 'm');
    assert "ti" + ['m'] == "tim";
  }

  lemma TimeoutHash1()
    ensures Djb2a("timeou") == 0x652686bf30a
  {
    TimeoutHash0();
    ByteCodes0('e'); HashSnoc("tim", 'e');
    assert "tim" + ['e'] == "time";
    ByteCodes2('o'); HashSnoc("time", 'o');
    assert "time" + ['o'] == "timeo";
    ByteCodes2('u'); HashSnoc("timeo", 'u');
    assert "timeo" + ['u'] == "timeou";
  }

  /** The hash of "timeout". */
  lemma TimeoutHash()
    ensures Djb2a("timeout") == 0xd09f75ea543e
  {
    TimeoutHash1();
    ByteCodes2('t'); HashSnoc("timeou", 't');
    assert "timeou" + ['t'] == "timeout";
  }

  lemma DisabledHash0()
    ensures Djb2a("dis") == 0xb871efb
  {
    ByteCodes0('d'); HashSnoc("", 'd');
    assert "" + ['d'] == "d";
    ByteCodes1('i'); HashSnoc("d", 'i');
    assert "d" + ['i'] == "di";
    ByteCodes2('s'); HashSnoc("di", 's');
    assert "di" + ['s'] == "dis";
  }

  lemma DisabledHash1()
    ensures Djb2a("disabl") == 0x65243236874
  {
    DisabledHash0();
    ByteCodes0('a'); HashSnoc("dis", 'a');
    assert "dis" + ['a'] == "disa";
    ByteCodes0('b'); HashSnoc("disa", 'b');
    assert "disa" + ['b'] == "disab";
    ByteCodes1('l'); HashSnoc("disab", 'l');
    assert "disab" + ['l'] == "disabl";
  }

  /** The hash of "disabled". */
  lemma DisabledHash()
    ensures Djb2a("disabled") == 0x1ae3ef999f48d5
  {
    DisabledHash1();
    ByteCodes0('e'); HashSnoc("disabl", 'e');
    assert "disabl" + ['e'] == "disable";
    ByteCodes0('d'); HashSnoc("disable", 'd');
    assert "disable" + ['d'] == "disabled";
  }

  lemma ActionHash0()
    ensures Djb2a("act") == 0xb873373
  {
    ByteCodes0('a'); HashSnoc("", 'a');
    assert "" + ['a'] == "a";
    ByteCodes0('c'); HashSnoc("a", 'c');
    assert "a" + ['c'] == "ac";
    ByteCodes2('t'); HashSnoc("ac", 't');
    assert "ac" + ['t'] == "act";
  }

  /** The hash of "action". */
  lemma ActionHash()
    ensures Djb2a("action") == 0x6524e5ceb5b
  {
    ActionHash0();
    ByteCodes1('i'); HashSnoc("act", 'i');
    assert "act" + ['i'] == "acti";
    ByteCodes2('o'); HashSnoc("acti", 'o');
    assert "acti" + ['o'] == "actio";
    ByteCodes1('n'); HashSnoc("actio", 'n');
    assert "actio" + ['n'] == "action";
  }

  /** The hash of "if". */
  lemma IfHash()
    ensures Djb2a("if") == 0x596f2a
  {
    ByteCodes1('i'); HashSnoc("", 'i');
    assert "" + ['i'] == "i";
    ByteCodes1('f'); HashSnoc("i", 'f');
    assert "i" + ['f'] == "if";
  }

  lemma ElseifHash0()
    ensures Djb2a("els") == 0xb87235f
  {
    ByteCodes0('e'); HashSnoc("", 'e');
    assert "" + ['e'] == "e";
    ByteCodes1('l'); HashSnoc("e", 'l');
    assert "e" + ['l'] == "el";
    ByteCodes2('s'); HashSnoc("el", 's');
    assert "el" + ['s'] == "els";
  }

  /** The hash of "elseif". */
  lemma ElseifHash()
    ensures Djb2a("elseif") == 0x652458cd935
  {
    ElseifHash0();
    ByteCodes0('e'); HashSnoc("els", 'e');
    assert "els" + ['e'] == "else";
    ByteCodes1('i'); HashSnoc("else", 'i');
    assert "else" + ['i'] == "elsei";
    ByteCodes1('f'); HashSnoc("elsei", 'f');
    assert "elsei" + ['f'] == "elseif";
  }

  lemma ElseHash0()
    ensures Djb2a("els") == 0xb87235f
  {
    ByteCodes0('e'); HashSnoc("", 'e');
    assert "" + ['e'] == "e";
    ByteCodes1('l'); HashSnoc("e", 'l');
    assert "e" + ['l'] == "el";
    ByteCodes2('s'); HashSnoc("el", 's');
    assert "el" + ['s'] == "els";
  }

  /** The hash of "else". */
  lemma ElseHash()
    ensures Djb2a("else") == 0x17c6b8f5a
  {
    ElseHash0();
    ByteCodes0('e'); HashSnoc("els", 'e');
    assert "els" + ['e'] == "else";
  }

  lemma WhileHash0()
    ensures Djb2a("whi") == 0xb877fd3
  {
    ByteCodes3('w'); HashSnoc("", 'w');
    assert "" + ['w'] == "w";
    ByteCodes1('h'); HashSnoc("w", 'h');
    assert "w" + ['h'] == "wh";
    ByteCodes1('i'); HashSnoc("wh", 'i');
    assert "wh" + ['i'] == "whi";
  }

  /** The hash of "while". */
  lemma WhileHash()
    ensures Djb2a("while") == 0x310b66c65a
  {
    WhileHash0();
    ByteCodes1('l'); HashSnoc("whi", 'l');
    assert "whi" + ['l'] == "whil";
    ByteCodes0('e'); HashSnoc("whil", 'e');
    assert "whil" + ['e'] == "while";
  }

  /** The hash of "try". */
  lemma TryHash()
    ensures Djb2a("try") == 0xb875f9a
  {
    ByteCodes2('t'); HashSnoc("", 't');
    assert "" + ['t'] == "t";
    ByteCodes2('r'); HashSnoc("t", 'r');
    assert "t" + ['r'] == "tr";
    ByteCodes3('y'); HashSnoc("tr", 'y');
    assert "tr" + ['y'] == "try";
  }

  lemma CatchHash0()
    ensures Djb2a("cat") == 0xb874bb3
  {
    ByteCodes0('c'); HashSnoc("", 'c');
    assert "" + ['c'] == "c";
    ByteCodes0('a'); HashSnoc("c", 'a');
    assert "c" + ['a'] == "ca";
    ByteCodes2('t'); HashSnoc("ca", 't');
    assert "ca" + ['t'] == "cat";
  }

  /** The hash of "catch". */
  lemma CatchHash()
    ensures Djb2a("catch") == 0x310a891018
  {
    CatchHash0();
    ByteCodes0('c'); HashSnoc("cat", 'c');
    assert "cat" + ['c'] == "catc";
    ByteCodes1('h'); HashSnoc("catc", 'h');
    assert "catc" + ['h'] == "catch";
  }

  /** The hash of "end". */
  lemma EndHash()
    ensures Djb2a("end") == 0xb87230a
  {
    ByteCodes0('e'); HashSnoc("", 'e');
    assert "" + ['e'] == "e";
    ByteCodes1('n'); HashSnoc("e", 'n');
    assert "e" + ['n'] == "en";
    ByteCodes0('d'); HashSnoc("en", 'd');
    assert "en" + ['d'] == "end";
  }

  /* The values of the `_sh` literals the reader's two switches use. */
  const TypeSh: bv64 := 0x17c737f9d
  const LabelSh: bv64 := 0x310a56e743
  const UseContextVariableNamesSh: bv64 := 0x4efb9f17d62150ab
  const TimeOfLastModificationSh: bv64 := 0x244b5ec7ef2aaaed
  const TimeOfLastExecutionSh: bv64 := 0x68f032b4ad0cff81
  const TimeoutSh: bv64 := 0xd09f75ea543e
  const DisabledSh: bv64 := 0x1ae3ef999f48d5

  const ActionSh: bv64 := 0x6524e5ceb5b
  const IfSh: bv64 := 0x596f2a
  const ElseifSh: bv64 := 0x652458cd935
  const ElseSh: bv64 := 0x17c6b8f5a
  const WhileSh: bv64 := 0x310b66c65a
  const TrySh: bv64 := 0xb875f9a
  const CatchSh: bv64 := 0x310a891018
  const EndSh: bv64 := 0xb87230a

  /** The seven header keywords of a step file, in the order of the switch. */
  const HeaderKeywords: seq<Bytes> := ["type", "label", "use context variable names",
    "time of last modification", "time of last execution", "timeout", "disabled"]

  const HeaderShs: seq<bv64> := [TypeSh, LabelSh, UseContextVariableNamesSh,
    TimeOfLastModificationSh, TimeOfLastExecutionSh, TimeoutSh, DisabledSh]

  /** The eight type names, in the order of the switch in `extract_type`. */
  const TypeWords: seq<Bytes> := ["action", "if", "elseif", "else", "while", "try", "catch", "end"]

  const TypeShs: seq<bv64> := [ActionSh, IfSh, ElseifSh, ElseSh, WhileSh, TrySh, CatchSh, EndSh]

  /** Each header constant is the hash of its keyword. */
  lemma HeaderShsAreHashes()
    ensures |HeaderShs| == |HeaderKeywords|
    ensures forall i :: 0 <= i < |HeaderKeywords| ==> Djb2a(HeaderKeywords[i]) == HeaderShs[i]
  {
    forall i | 0 <= i < |HeaderKeywords| ensures Djb2a(HeaderKeywords[i]) == HeaderShs[i] {
      if i == 0 { TypeHash(); }
      else if i == 1 { LabelHash(); }
      else if i == 2 { UseContextVariableNamesHash(); }
      else if i == 3 { TimeOfLastModificationHash(); }
      else if i == 4 { TimeOfLastExecutionHash(); }
      else if i == 5 { TimeoutHash(); }
      else { DisabledHash(); }
    }
  }

  /** Each type constant is the hash of its type name. */
  lemma TypeShsAreHashes()
    ensures |TypeShs| == |TypeWords|
    ensures forall i :: 0 <= i < |TypeWords| ==> Djb2a(TypeWords[i]) == TypeShs[i]
  {
    forall i | 0 <= i < |TypeWords| ensures Djb2a(TypeWords[i]) == TypeShs[i] {
      if i == 0 { ActionHash(); }
      else if i == 1 { IfHash(); }
      else if i == 2 { ElseifHash(); }
      else if i == 3 { ElseHash(); }
      else if i == 4 { WhileHash(); }
      else if i == 5 { TryHash(); }
      else if i == 6 { CatchHash(); }
      else { EndHash(); }
    }
  }

  /** The seven header keywords hash to pairwise different values, so the
      duplicate check never confuses two of them and each case of the switch
      is reached by its own keyword. */
  lemma HeaderHashesDistinct()
    ensures forall i, j :: 0 <= i < j < |HeaderKeywords| ==> Djb2a(HeaderKeywords[i]) != Djb2a(HeaderKeywords[j])
  {
    HeaderShsAreHashes();
  }

  /** The eight type names hash to pairwise different values. */
  lemma TypeHashesDistinct()
    ensures forall i, j :: 0 <= i < j < |TypeWords| ==> Djb2a(TypeWords[i]) != Djb2a(TypeWords[j])
  {
    TypeShsAreHashes();
  }
}
