TestResult.DisplayName,TestResult.Outcome,TestResult.Duration,TestResult.ResourceCount,RandomSeed
PtbSymbol.NewSymbol (correctness),Passed,00:00:00.2424517,606152,0
