/** The strings ipm.py derives from an STM32 part number such as
    "STM32F407VG": the accepted-device check, the family folder name, the
    device macro, the `main.c` include line and the core header. */
module Device {
  import opened Outcomes
  import opened Text

  /** `Create` goes on only when the first six characters of the device,
      lower-cased, are "stm32f" (ipm.py:219). */
  predicate Accepted(device: string) {
    Take(Lower(device), 6) == "stm32f"
  }

  /** Accepted exactly when the device has six characters or more and
      they spell "stm32f" in any case. */
  lemma AcceptedIff(device: string)
    ensures Accepted(device) <==>
      |device| >= 6 && forall i :: 0 <= i < 6 ==> LowerChar(device[i]) == "stm32f"[i]
  {
    if Accepted(device) {
      assert |Lower(device)| == |device|;
      assert |device| >= 6;
      forall i | 0 <= i < 6
        ensures LowerChar(device[i]) == "stm32f"[i]
      {
        assert Lower(device)[..6][i] == Lower(device)[i];
      }
    }
    if |device| >= 6 && forall i :: 0 <= i < 6 ==> LowerChar(device[i]) == "stm32f"[i] {
      assert Take(Lower(device), 6) == Lower(device)[..6];
      assert Lower(device)[..6] == "stm32f";
    }
  }

  /** The family folder name, `device[0:7].upper() + "xx"`
      (ipm.py:279 on the device as given, ipm.py:341 on it lower-cased). */
  function Family(device: string): (r: string)
    ensures |device| >= 7 <==> |r| == 9
    ensures EndsWith(r, "xx")
  {
    Upper(Take(device, 7)) + "xx"
  }

  /** The two computations of the family agree: the folder the CMSIS
      files are copied into is the one the project file points at. */
  lemma FamilyIgnoresCase(device: string)
    ensures Family(Lower(device)) == Family(device)
  {
    TakeLower(device, 7);
    UpperOfLower(Take(device, 7));
  }

  /** For an accepted device the family is "STM32F", the upper-cased
      series character and "xx". */
  lemma AcceptedFamily(device: string)
    requires Accepted(device) && |device| >= 7
    ensures Family(device) == "STM32F" + [UpperChar(device[6])] + "xx"
  {
    AcceptedIff(device);
    var f := Upper(device[..7]);
    forall i | 0 <= i < 6
      ensures f[i] == "STM32F"[i]
    {
      UpperOfLowerChar(device[i]);
    }
    assert f == "STM32F" + [UpperChar(device[6])];
  }

  /** A family other than STM32F4xx differs from it at its seventh
      character, and it holds no '$' followed by 'P'. */
  lemma OtherFamily(device: string)
    requires Accepted(device) && Family(device) != "STM32F4xx"
    ensures |Family(device)| >= 8 && Family(device)[6] != '4'
    ensures Family(device)[|Family(device)| - 1] == 'x'
    ensures PairFree(Family(device), '$', 'P')
  {
    var f := Family(device);
    if |device| >= 7 {
      AcceptedFamily(device);
      var x := UpperChar(device[6]);
      PairFreeConcat("STM32F", [x], '$', 'P');
      PairFreeConcat("STM32F" + [x], "xx", '$', 'P');
    } else {
      AcceptedIff(device);
      forall i | 0 <= i < 6
        ensures Upper(device)[i] == "STM32F"[i]
      {
        UpperOfLowerChar(device[i]);
      }
      assert f == "STM32F" + "xx";
    }
  }

  /** The device macro, `device.upper()[0:9] + device.lower()[9:]`
      (ipm.py:352): the first nine characters upper-cased, the rest
      lower-cased. */
  function Macro(device: string): (r: string)
    ensures |r| == |device|
    ensures forall i :: 0 <= i < |r| ==>
      r[i] == if i < 9 then UpperChar(device[i]) else LowerChar(device[i])
  {
    Take(Upper(device), 9) + Drop(Lower(device), 9)
  }

  /** The macro does not depend on the case the device was given in. */
  lemma MacroIgnoresCase(device: string)
    ensures Macro(Lower(device)) == Macro(device)
  {
    forall i | 0 <= i < |device|
      ensures Macro(Lower(device))[i] == Macro(device)[i]
    {
      UpperOfLowerChar(device[i]);
      LowerIdempotentChar(device[i]);
    }
  }

  lemma LowerIdempotentChar(c: char)
    ensures LowerChar(LowerChar(c)) == LowerChar(c)
  {
    if 'A' <= c <= 'Z' {
      assert LowerChar(c) == (c as int + 32) as char;
    }
  }

  /** The macro of an accepted device starts with its family name
      without the "xx". */
  lemma MacroStartsWithFamily(device: string)
    requires Accepted(device) && |device| >= 7
    ensures Macro(device)[..7] == Family(device)[..7]
  {
    AcceptedFamily(device);
    forall i | 0 <= i < 7
      ensures Macro(device)[i] == Family(device)[i]
    {
      if i < 6 {
        AcceptedIff(device);
        UpperOfLowerChar(device[i]);
      }
    }
  }

  /** The include line `main.c` gets, built from the seventh character of
      the device as given (ipm.py:233); Python raises IndexError for a
      shorter device. The line exists exactly when the family name is
      complete, and up to case it names the family header. */
  function IncludeLine(device: string): (r: Result<string>)
    ensures r.Ok? <==> |Family(device)| == 9
    ensures r.Err? ==> r.error == IndexError
    ensures r.Ok? && Accepted(device) ==>
      Lower(r.value) == "#include \"" + Lower(Family(device)) + ".h\""
  {
    if |device| < 7 then Err(IndexError)
    else
      IncludeLineLower(device);
      Ok("#include \"stm32f" + [device[6]] + "xx.h\"")
  }

  lemma IncludeLineLower(device: string)
    requires |device| >= 7
    ensures Accepted(device) ==>
      Lower("#include \"stm32f" + [device[6]] + "xx.h\"") == "#include \"" + Lower(Family(device)) + ".h\""
  {
    if Accepted(device) {
      var c := device[6];
      AcceptedFamily(device);
      LowerOfUpperChar(c);
      var head := "#include \"stm32f";
      var tail := "xx.h\"";
      LowerAppend(head + [c], tail);
      LowerAppend(head, [c]);
      assert Lower(head) == head;
      assert Lower(tail) == tail;
      var f := Family(device);
      LowerAppend("STM32F" + [UpperChar(c)], "xx");
      LowerAppend("STM32F", [UpperChar(c)]);
      assert Lower(f) == "stm32f" + [LowerChar(c)] + "xx";
      assert head + [c] + tail == "#include \"stm32f" + [c] + "xx.h\"";
      assert "#include \"" + Lower(f) + ".h\"" == head + [LowerChar(c)] + tail;
    }
  }

  lemma LowerOfUpperChar(c: char)
    ensures LowerChar(UpperChar(c)) == LowerChar(c)
  {
    if 'a' <= c <= 'z' {
      assert UpperChar(c) == (c as int - 32) as char;
    }
  }

  /** The core header of each series digit (ipm.py:400-410), as a table. */
  const CoreTable: map<char, string> :=
    map['0' := "core_cm0.h", '1' := "core_cm3.h", '2' := "core_cm3.h",
        '3' := "core_cm4.h", '4' := "core_cm4.h", '7' := "core_cm7.h"]

  /** The `if`/`elif` chain on `device[6]` (ipm.py:400-410), applied to the
      lower-cased device. */
  function CoreHeader(device: string): (r: Result<string>)
    ensures |device| < 7 ==> r == Err(IndexError)
    ensures |device| >= 7 ==> (r.Ok? <==> device[6] in CoreTable)
    ensures |device| >= 7 && device[6] in CoreTable ==> r == Ok(CoreTable[device[6]])
    ensures |device| >= 7 && device[6] !in CoreTable ==> r == Err(Exit("Can not define device core"))
  {
    if |device| < 7 then Err(IndexError)
    else
      var series := device[6];
      if series == '0' then Ok("core_cm0.h")
      else if series == '1' || series == '2' then Ok("core_cm3.h")
      else if series == '3' || series == '4' then Ok("core_cm4.h")
      else if series == '7' then Ok("core_cm7.h")
      else Err(Exit("Can not define device core"))
  }

  /** When the core is known, `main.c` includes the family header that
      `CopyCMSISFiles` copies, `device_family.lower() + ".h"`
      (ipm.py:233 against ipm.py:299-300). */
  lemma IncludeNamesFamilyHeader(device: string)
    requires Accepted(device)
    requires CoreHeader(Lower(device)).Ok?
    ensures IncludeLine(device) == Ok("#include \"" + Lower(Family(device)) + ".h\"")
  {
    assert |Lower(device)| == |device|;
    var c := device[6];
    assert LowerChar(c) in CoreTable;
    assert c == LowerChar(c);
    assert UpperChar(c) == c;
    AcceptedFamily(device);
    var f := Family(device);
    assert f == "STM32F" + [c] + "xx";
    forall i | 0 <= i < 9
      ensures Lower(f)[i] == ("stm32f" + [c] + "xx")[i]
    {
    }
    assert Lower(f) == "stm32f" + [c] + "xx";
    assert "#include \"" + ("stm32f" + [c] + "xx") + ".h\"" == "#include \"stm32f" + [c] + "xx.h\"";
  }
}
