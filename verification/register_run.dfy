/** The register 2^31 after the numbers of steps in the zero polynomial, computed on machine words. */
module RegisterRun {
  import opened MachineRegister

  /** n steps on a machine word. */
  function Run(x: bv32, n: nat): bv32
    decreases n
  {
    if n == 0 then x else Run(Step(x), n - 1)
  }

  function Steps4(x: bv32): bv32 { Step(Step(Step(Step(x)))) }

  lemma Stride4(x: bv32, y: bv32, n: nat)
    requires 4 <= n && y == Steps4(x)
    ensures Run(x, n) == Run(y, n - 4)
  {
    hide Step;
    assert Run(x, n) == Run(Step(x), n - 1);
    assert Run(Step(x), n - 1) == Run(Step(Step(x)), n - 2);
    assert Run(Step(Step(x)), n - 2) == Run(Step(Step(Step(x))), n - 3);
  }

  lemma Stride16(x: bv32, a: bv32, b: bv32, c: bv32, y: bv32, n: nat)
    requires 16 <= n && a == Steps4(x) && b == Steps4(a) && c == Steps4(b) && y == Steps4(c)
    ensures Run(x, n) == Run(y, n - 16)
  {
    hide Run, Steps4;
    Stride4(x, a, n);
    Stride4(a, b, n - 4);
    Stride4(b, c, n - 8);
    Stride4(c, y, n - 12);
  }

  lemma Stride1(x: bv32, y: bv32, n: nat)
    requires 1 <= n && y == Step(x)
    ensures Run(x, n) == Run(y, n - 1)
  {
  }

  lemma RunNone(x: bv32)
    ensures Run(x, 0) == x
  {
  }

  /** The register 2^31 after the numbers of steps that matter. */
  lemma Milestone89()
    ensures Run(0x80000000, 89) == 0x299DC2ED
  {
    hide Run;
    Stride16(0x80000000, 0x08000000, 0x00800000, 0x00080000, 0x00008000, 89);
    Stride16(0x00008000, 0x00000800, 0x00000080, 0x00000008, 0xEDB88320, 73);
    Stride16(0xEDB88320, 0x0EDB8832, 0x3B83984B, 0xC8D98A08, 0xE1351B80, 57);
    Stride16(0xE1351B80, 0x0E1351B8, 0xED59B63B, 0xC5B428EF, 0xB1E6B092, 41);
    Stride16(0xB1E6B092, 0x30704BC1, 0x1EB014D8, 0xEC53826D, 0x8816EAF2, 25);
    Stride4(0x8816EAF2, 0x33EF4E67, 9);
    Stride4(0x33EF4E67, 0x533B85DA, 5);
    Stride1(0x533B85DA, 0x299DC2ED, 1);
    RunNone(0x299DC2ED);
  }

  lemma Milestone117()
    ensures Run(0x299DC2ED, 28) == 0xB0D97382
  {
    hide Run;
    Stride16(0x299DC2ED, 0x844A0EFA, 0xDE920307, 0x5DEC510C, 0x9EBA07A0, 28);
    Stride4(0x9EBA07A0, 0x09EBA07A, 12);
    Stride4(0x09EBA07A, 0xD64819EF, 8);
    Stride4(0xD64819EF, 0xB0D97382, 4);
    RunNone(0xB0D97382);
  }

  lemma Milestone155()
    ensures Run(0xB0D97382, 38) == 0xE6273E9E
  {
    hide Run;
    Stride16(0xB0D97382, 0x3063B7F0, 0x03063B7F, 0xBD8D91AB, 0xC0B96A96, 38);
    Stride16(0xC0B96A96, 0x41B9F7F1, 0x19AC8F1B, 0xCAFB7B7D, 0x8A7C6563, 22);
    Stride4(0x8A7C6563, 0x2E7EF6FA, 6);
    Stride1(0x2E7EF6FA, 0x173F7B7D, 2);
    Stride1(0x173F7B7D, 0xE6273E9E, 1);
    RunNone(0xE6273E9E);
  }

  lemma Milestone235()
    ensures Run(0xE6273E9E, 80) == 0xAA525B78
  {
    hide Run;
    Stride16(0xE6273E9E, 0xAE689191, 0x1751997D, 0x87A6CB43, 0x2EA35C18, 80);
    Stride16(0x2EA35C18, 0xEF52B6E1, 0x13423B0A, 0xD7E28058, 0xE0C6AB25, 64);
    Stride16(0xE0C6AB25, 0x65673B46, 0x4BE412EC, 0x9FDA839E, 0xA9F74A41, 48);
    Stride16(0xA9F74A41, 0x172864C0, 0x0172864C, 0x9B73EAD4, 0x7F6B7F3D, 32);
    Stride16(0x7F6B7F3D, 0x81256527, 0x5817276E, 0xA58B900E, 0xAA525B78, 16);
    RunNone(0xAA525B78);
  }

  lemma Milestone300()
    ensures Run(0xAA525B78, 65) == 0xFF638FF1
  {
    hide Run;
    Stride16(0xAA525B78, 0xE71DA697, 0x5E74AB55, 0x6E8C1B41, 0x1B5FD1D0, 65);
    Stride16(0x1B5FD1D0, 0x01B5FD1D, 0x86C88D05, 0x6307D924, 0x70EC3C02, 49);
    Stride16(0x70EC3C02, 0x3C60E308, 0xEE7E8D10, 0x0EE7E8D1, 0x1D596EE9, 33);
    Stride16(0x1D596EE9, 0xF1DA05AA, 0xD9CB03B2, 0x36F290F3, 0x25B619A3, 17);
    Stride1(0x25B619A3, 0xFF638FF1, 1);
    RunNone(0xFF638FF1);
  }
}
